/** The web-search scraper of scrapers/websearch.py: DuckDuckGo result
    blocks become offers that point at a site, redirect links are unwrapped,
    repair guides are dropped unless asked for, and the first few results
    get an image and a price from a preview of the page they link to.

    Fetching pages and selecting HTML elements are parameters: a result
    block arrives as the fields the selectors extract, and a fetched page as
    a lookup from a CSS selector to the first tag it selects. */
module WebSearch {
  import opened Values
  import opened Text
  import opened UrlParse
  import opened PriceParser

  const SearchUrl: string := "https://duckduckgo.com/html/"
  const MaxResults: nat := 10
  const MaxPreviewFetches: nat := 5

  /** The host name whose links are DuckDuckGo's own. */
  const SearchHost: string := "duckduckgo.com"

  // ---------------------------------------------------------------------
  // Links

  /** `_domain_for(url)`: the authority of the URL, or "Web" when it has
      none or cannot be parsed. */
  function DomainFor(url: string): (r: string)
    ensures r != []
  {
    match SplitUrl(url)
    case Err(_) => "Web"
    case Ok(p) => if p.netloc == [] then "Web" else p.netloc
  }

  /** `DomainFor` reads the authority off `urlsplit`, which is the one
      `urlparse` gives: the two fail together and differ only in the path. */
  lemma DomainForParse(url: string)
    ensures Parse(url).Err? ==> DomainFor(url) == "Web"
    ensures Parse(url).Ok? ==> DomainFor(url) == (if Parse(url).value.netloc == [] then "Web" else Parse(url).value.netloc)
  {
    if Parse(url).Ok? {
      assert Parse(url).value.netloc == Parse(url).value.(path := SplitUrl(url).value.path).netloc;
    }
  }

  /** `_resolve_link(href)`: a DuckDuckGo `/l/` redirect gives its decoded
      `uddg` target (or the decoded link itself when there is none); any
      other link is returned as it is. `None` is passed as "". */
  function ResolveLink(href: string): string {
    if href == [] then []
    else
      match Parse(href)
      case Err(_) => href
      case Ok(p) =>
        if EndsWith(p.netloc, SearchHost) && StartsWith(p.path, "/l/") then
          var target := FirstValue(ParseQsl(p.query), "uddg");
          if target.Some? then Unquote(target.value) else Unquote(href)
        else href
  }

  /** The domain of a URL is its host. */
  lemma DomainIsHost(scheme: string, host: string, path: string, query: Option<string>)
    requires SchemeAndHost(scheme, host) && PathAndQuery(path, query) && host != []
    ensures DomainFor(Absolute(scheme, host, path, query)) == host
  {
    SplitParts(scheme, host, path, query);
  }

  /** A link is kept as it is unless it parses as a link on DuckDuckGo whose
      path starts with `/l/`. */
  lemma LinkKept(href: string)
    requires || Parse(href).Err?
             || !EndsWith(Parse(href).value.netloc, SearchHost)
             || !StartsWith(Parse(href).value.path, "/l/")
    ensures ResolveLink(href) == href
  {
  }

  /** A link to any host but DuckDuckGo, or to a DuckDuckGo page outside
      `/l/`, is kept as it is. */
  lemma OtherLinksKept(scheme: string, host: string, path: string, query: Option<string>)
    requires SchemeAndHost(scheme, host) && PathAndQuery(path, query)
    requires !EndsWith(host, SearchHost) || !StartsWith(path, "/l/")
    ensures ResolveLink(Absolute(scheme, host, path, query)) == Absolute(scheme, host, path, query)
  {
    ParseParts(scheme, host, path, query);
    ParsedPathPrefix(Lower(scheme), path, "/l/");
    LinkKept(Absolute(scheme, host, path, query));
  }

  /** The redirect `scheme://host/l/?uddg=<quoted target>`. */
  function Redirect(scheme: string, host: string, target: string): string {
    Absolute(scheme, host, "/l/", Some("uddg" + "=" + Quote(target)))
  }

  /** A redirect parses into its parts, with no `;params` to cut. */
  lemma RedirectParts(scheme: string, host: string, target: string)
    requires SchemeAndHost(scheme, host) && target != []
    ensures Redirect(scheme, host, target) != []
    ensures Parse(Redirect(scheme, host, target)) == Ok(Parts(Lower(scheme), host, "/l/", "uddg" + "=" + Quote(target), []))
  {
    var query := "uddg" + "=" + Quote(target);
    QuoteSeparators(target);
    SafeConcat("uddg" + "=", Quote(target));
    assert '#' !in query;
    assert Safe("/l/");
    SplitParts(scheme, host, "/l/", Some(query));
  }

  /** The query of a redirect names its target. */
  lemma RedirectTarget(target: string)
    requires target != []
    ensures FirstValue(ParseQsl("uddg" + "=" + Quote(target)), "uddg") == Some(target)
  {
    SingleField("uddg", target);
  }

  /** A DuckDuckGo redirect to a quoted target resolves to the target,
      decoded a second time. */
  lemma RedirectResolved(scheme: string, host: string, target: string)
    requires SchemeAndHost(scheme, host) && EndsWith(host, SearchHost)
    requires target != []
    ensures ResolveLink(Redirect(scheme, host, target)) == Unquote(target)
  {
    RedirectParts(scheme, host, target);
    RedirectResolvedAt(Redirect(scheme, host, target), Lower(scheme), host, target);
  }

  /** The same, for any link that parses as such a redirect. */
  lemma RedirectResolvedAt(url: string, scheme: string, host: string, target: string)
    requires url != [] && Parse(url) == Ok(Parts(scheme, host, "/l/", "uddg" + "=" + Quote(target), []))
    requires EndsWith(host, SearchHost) && target != []
    ensures ResolveLink(url) == Unquote(target)
  {
    RedirectTarget(target);
    assert StartsWith("/l/", "/l/");
    RedirectTaken(url, Parts(scheme, host, "/l/", "uddg" + "=" + Quote(target), []));
  }

  /** A target without `%` comes back as it is. */
  lemma RedirectPlainTarget(scheme: string, host: string, target: string)
    requires SchemeAndHost(scheme, host) && EndsWith(host, SearchHost)
    requires target != [] && '%' !in target
    ensures ResolveLink(Redirect(scheme, host, target)) == target
  {
    RedirectResolved(scheme, host, target);
  }

  /** A link on DuckDuckGo whose path starts with `/l/` and whose query
      names a `uddg` target resolves to that target, decoded. */
  lemma RedirectTaken(href: string, p: Parts)
    requires href != [] && Parse(href) == Ok(p)
    requires EndsWith(p.netloc, SearchHost) && StartsWith(p.path, "/l/")
    requires FirstValue(ParseQsl(p.query), "uddg").Some?
    ensures ResolveLink(href) == Unquote(FirstValue(ParseQsl(p.query), "uddg").value)
  {
  }

  // ---------------------------------------------------------------------
  // Repair guides

  const GuideIndicators: seq<string> := ["repair guide", "ifixit", "how to", "tutorial", "step-by-step"]

  /** `snippet or ''`. */
  function SnippetText(snippet: Option<string>): string {
    if snippet.Some? then snippet.value else []
  }

  /** The text `_is_repair_guide` searches. */
  function GuideText(title: string, snippet: Option<string>): string {
    Lower(title + " " + SnippetText(snippet))
  }

  /** `_is_repair_guide(title, snippet)`. */
  predicate IsRepairGuide(title: string, snippet: Option<string>) {
    exists k :: 0 <= k < |GuideIndicators| && Contains(GuideText(title, snippet), GuideIndicators[k])
  }

  /** The guide test ignores the case of the title. */
  lemma GuideTestIgnoresCase(title: string, snippet: Option<string>)
    ensures IsRepairGuide(Lower(title), snippet) <==> IsRepairGuide(title, snippet)
  {
    var rest := " " + SnippetText(snippet);
    assert Lower(title) + " " + SnippetText(snippet) == Lower(title) + rest;
    assert title + " " + SnippetText(snippet) == title + rest;
    LowerAppend(Lower(title), rest);
    LowerAppend(title, rest);
    LowerIdempotent(title);
    assert GuideText(Lower(title), snippet) == GuideText(title, snippet);
  }

  /** A title that names a guide makes a guide, whatever the snippet. */
  lemma GuideTitleSuffices(title: string, snippet: Option<string>, k: nat)
    requires k < |GuideIndicators| && Contains(Lower(title), GuideIndicators[k])
    ensures IsRepairGuide(title, snippet)
  {
    var rest := " " + SnippetText(snippet);
    assert title + " " + SnippetText(snippet) == title + rest;
    LowerAppend(title, rest);
    ContainsInPrefix(Lower(title), Lower(rest), GuideIndicators[k]);
  }

  // ---------------------------------------------------------------------
  // Result blocks

  /** The result link element: its `href` attribute and its text. */
  datatype Anchor = Anchor(href: Option<string>, title: string)

  /** A `div.result` block: its link element, if any, and the text of its
      snippet element, if it has one. */
  datatype Block = Block(anchor: Option<Anchor>, snippet: Option<string>)

  /** `"guide" in query.lower()`. */
  predicate AllowGuides(query: string) {
    Contains(Lower(query), "guide")
  }

  /** The offer a kept block becomes. */
  function ResultItem(title: string, link: string, source: string, snippet: Option<string>): Item {
    map[
      "title" := VStr(title),
      "link" := VStr(link),
      "source" := VStr(source),
      "in_stock" := VBool(false),
      "price" := VNone,
      "image" := VNone,
      "snippet" := if snippet.Some? then VStr(snippet.value) else VNone,
      "stock_label" := VStr("Visit site")]
  }

  /** The link a block leads to, `None` read as "". */
  function BlockLink(a: Anchor): string {
    ResolveLink(if a.href.Some? then a.href.value else [])
  }

  /** The filter `_parse_results` applies to a block with a link element,
      once its link is resolved and its source named: nothing when the link
      is empty or on DuckDuckGo, or when it is an unwanted guide. */
  function Keep(title: string, snippet: Option<string>, href: string, source: string, allowGuides: bool): Option<Item> {
    if |href| == 0 || EndsWith(source, SearchHost) then None
    else if !allowGuides && IsRepairGuide(title, snippet) then None
    else Some(ResultItem(title, href, source, snippet))
  }

  /** What one block contributes: nothing when it has no link element,
      otherwise what `Keep` makes of its resolved link. */
  function Entry(b: Block, allowGuides: bool): Option<Item> {
    if b.anchor.None? then None
    else
      var href := BlockLink(b.anchor.value);
      Keep(b.anchor.value.title, b.snippet, href, DomainFor(href), allowGuides)
  }

  /** `Entry` as a function of the block alone. */
  function EntryOf(allowGuides: bool): Block -> Option<Item> {
    b => Entry(b, allowGuides)
  }

  /** The values `f` gives on `xs`, in order, skipping the `None`s: the
      offers of the blocks when `f` is `EntryOf(allowGuides)`. */
  function Kept<T, U>(xs: seq<T>, f: T -> Option<U>): (r: seq<U>)
    ensures |r| <= |xs|
  {
    if xs == [] then []
    else
      var e := f(xs[|xs| - 1]);
      Kept(xs[..|xs| - 1], f) + (if e.Some? then [e.value] else [])
  }

  /** The first `MaxResults` of them. */
  function Capped<U>(items: seq<U>): (r: seq<U>)
    ensures |r| <= MaxResults && r <= items
    ensures |items| <= MaxResults ==> r == items
  {
    if |items| <= MaxResults then items else items[..MaxResults]
  }

  /** What a prefix of the input keeps starts what the whole input keeps. */
  lemma {:induction false} KeptPrefix<T, U>(xs: seq<T>, n: nat, f: T -> Option<U>)
    requires n <= |xs|
    ensures Kept(xs[..n], f) <= Kept(xs, f)
    decreases |xs|
  {
    if n < |xs| {
      var init := xs[..|xs| - 1];
      assert init[..n] == xs[..n];
      KeptPrefix(init, n, f);
    } else {
      assert xs[..n] == xs;
    }
  }

  /** Each kept value is what `f` gives on some input. */
  lemma {:induction false} KeptFrom<T, U>(xs: seq<T>, f: T -> Option<U>)
    ensures forall y :: y in Kept(xs, f) ==> exists j :: 0 <= j < |xs| && f(xs[j]) == Some(y)
  {
    if xs != [] {
      var init := xs[..|xs| - 1];
      KeptFrom(init, f);
      forall y | y in Kept(xs, f)
        ensures exists j :: 0 <= j < |xs| && f(xs[j]) == Some(y)
      {
        if y in Kept(init, f) {
          var j :| 0 <= j < |init| && f(init[j]) == Some(y);
          assert xs[j] == init[j];
        } else {
          assert f(xs[|xs| - 1]) == Some(y);
        }
      }
    }
  }

  /** No value `f` gives is lost. */
  lemma {:induction false} KeptListed<T, U>(xs: seq<T>, j: nat, f: T -> Option<U>)
    requires j < |xs| && f(xs[j]).Some?
    ensures f(xs[j]).value in Kept(xs, f)
    decreases |xs|
  {
    var init := xs[..|xs| - 1];
    if j < |init| {
      assert init[j] == xs[j];
      KeptListed(init, j, f);
    }
  }

  /** The loop of `_parse_results`: the values `f` gives on the inputs, in
      order, stopping once `MaxResults` are collected. */
  method CollectFirst<T, U>(xs: seq<T>, f: T -> Option<U>) returns (results: seq<U>)
    ensures results == Capped(Kept(xs, f))
  {
    results := [];
    var i := 0;
    while i < |xs|
      invariant 0 <= i <= |xs|
      invariant results == Kept(xs[..i], f)
      invariant |results| < MaxResults
    {
      assert xs[..i + 1][..i] == xs[..i];
      var e := f(xs[i]);
      if e.Some? {
        results := results + [e.value];
        if |results| >= MaxResults {
          KeptPrefix(xs, i + 1, f);
          break;
        }
      }
      i := i + 1;
    }
    if i == |xs| {
      assert xs[..i] == xs;
    }
  }

  /** `_parse_results(html, query)`, on the blocks the page holds. */
  method ParseResults(blocks: seq<Block>, query: string) returns (results: seq<Item>)
    ensures results == Capped(Kept(blocks, EntryOf(AllowGuides(query))))
  {
    var allowGuides := Contains(Lower(query), "guide");
    results := CollectFirst(blocks, EntryOf(allowGuides));
  }

  /** A kept block gives an offer in the shape `_parse_results` builds:
      its title, a non-empty link off DuckDuckGo, not in stock, no price, no image, a
      "Visit site" label, and no guide unless guides are allowed. */
  lemma KeepShape(title: string, snippet: Option<string>, href: string, source: string, allowGuides: bool)
    requires Keep(title, snippet, href, source, allowGuides).Some?
    ensures var it := Keep(title, snippet, href, source, allowGuides).value;
      && it["title"] == VStr(title)
      && it["link"] == VStr(href) && href != []
      && it["source"] == VStr(source) && !EndsWith(source, SearchHost)
      && it["in_stock"] == VBool(false) && it["price"] == VNone && it["image"] == VNone
      && it["stock_label"] == VStr("Visit site")
      && (!allowGuides ==> !IsRepairGuide(title, snippet))
  {
  }

  // ---------------------------------------------------------------------
  // Page previews

  /** An HTML tag, by its attributes. */
  datatype Tag = Tag(attrs: map<string, string>)

  /** A parsed page: `soup.select_one(selector)`. */
  type Page = string -> Option<Tag>

  const ImageSelectors: seq<string> := [
    "meta[property='og:image']",
    "meta[name='og:image']",
    "meta[name='twitter:image']",
    "meta[property='twitter:image']",
    "link[rel='image_src']"]

  const PriceSelectors: seq<string> := [
    "meta[property='product:price:amount']",
    "meta[property='og:price:amount']",
    "meta[name='price']",
    "meta[itemprop='price']"]

  /** `tag.get(a) or tag.get(b)`, with a missing attribute read as "". */
  function AttrOr(t: Tag, a: string, b: string): string {
    if a in t.attrs && t.attrs[a] != [] then t.attrs[a]
    else if b in t.attrs then t.attrs[b]
    else []
  }

  /** What one selector yields: the attribute value of the tag it selects,
      "" when it selects none. */
  function Yield(page: Page, selector: string, a: string, b: string): string {
    var tag := page(selector);
    if tag.Some? then AttrOr(tag.value, a, b) else []
  }

  /** The value of the first selector, in list order, that yields one. */
  function FirstFound(page: Page, selectors: seq<string>, a: string, b: string): Option<string> {
    if selectors == [] then None
    else if Yield(page, selectors[0], a, b) != [] then Some(Yield(page, selectors[0], a, b))
    else FirstFound(page, selectors[1..], a, b)
  }

  /** The first selector that yields a value wins; none wins when none
      yields one. */
  lemma {:induction false} FirstFoundIsFirst(page: Page, selectors: seq<string>, a: string, b: string)
    ensures FirstFound(page, selectors, a, b).None? <==>
      forall i :: 0 <= i < |selectors| ==> Yield(page, selectors[i], a, b) == []
    ensures FirstFound(page, selectors, a, b).Some? ==>
      exists i :: 0 <= i < |selectors|
        && Yield(page, selectors[i], a, b) == FirstFound(page, selectors, a, b).value != []
        && forall j :: 0 <= j < i ==> Yield(page, selectors[j], a, b) == []
  {
    if selectors != [] {
      var rest := selectors[1..];
      FirstFoundIsFirst(page, rest, a, b);
      assert forall i :: 1 <= i < |selectors| ==> selectors[i] == rest[i - 1];
      if Yield(page, selectors[0], a, b) == [] && FirstFound(page, rest, a, b).Some? {
        var i :| 0 <= i < |rest|
          && Yield(page, rest[i], a, b) == FirstFound(page, rest, a, b).value != []
          && forall j :: 0 <= j < i ==> Yield(page, rest[j], a, b) == [];
        assert selectors[i + 1] == rest[i];
        assert forall j :: 1 <= j < i + 1 ==> Yield(page, selectors[j], a, b) == Yield(page, rest[j - 1], a, b);
      }
    }
  }

  /** The details a preview gives, from the first image and the first raw
      price its selectors found: the image, the price stripped, and the
      price's value when that is not zero. */
  function Details(image: Option<string>, price: Option<string>): (d: Item)
    ensures "image" in d <==> image.Some? && image.value != []
    ensures "image" in d ==> Truthy(d["image"])
    ensures "price" in d <==> price.Some?
    ensures "price_value" in d ==> "price" in d && d["price_value"] != VFloat(0.0)
    ensures forall k :: k in d ==> k == "image" || k == "price" || k == "price_value"
  {
    var d: Item := if image.Some? && image.value != [] then map["image" := VStr(image.value)] else map[];
    if price.None? then d
    else
      var d := d["price" := VStr(Strip(price.value))];
      var v := ParsePrice(price.value);
      if v != 0.0 then d["price_value" := VFloat(v)] else d
  }

  /** The details a parsed page gives. */
  function PreviewOf(page: Page): Item {
    Details(FirstFound(page, ImageSelectors, "content", "href"), FirstFound(page, PriceSelectors, "content", "value"))
  }

  /** Where pages come from. */
  datatype Web = Web(
    search: string -> Option<string>,   // `safe_get(SEARCH_URL, params={"q": query, ...})`
    blocks: string -> seq<Block>,        // the `div.result` blocks of a result page
    fetch: string -> Option<string>,     // `safe_get(url)`
    soup: string -> Page)                // `BeautifulSoup(html)`

  /** The preview of the page at `url`: nothing when it cannot be fetched. */
  function PreviewFor(url: string, web: Web): Item {
    var html := web.fetch(url);
    if html.None? || html.value == [] then map[] else PreviewOf(web.soup(html.value))
  }

  /** One selector loop of `_preview_details_for`: try the selectors in
      order and stop at the first that yields a value. */
  method FirstYield(page: Page, selectors: seq<string>, a: string, b: string) returns (found: Option<string>)
    ensures found == FirstFound(page, selectors, a, b)
  {
    found := None;
    var i := 0;
    while i < |selectors|
      invariant 0 <= i <= |selectors|
      invariant FirstFound(page, selectors, a, b) == FirstFound(page, selectors[i..], a, b)
    {
      var tag := page(selectors[i]);
      if tag.Some? {
        var content := AttrOr(tag.value, a, b);
        if content != [] {
          found := Some(content);
          return;
        }
      }
      assert selectors[i..][1..] == selectors[i + 1..];
      i := i + 1;
    }
  }

  /** `_preview_details_for(url)`: fetch the page, then the image loop and
      the price loop. */
  method PreviewDetails(url: string, web: Web) returns (details: Item)
    ensures details == PreviewFor(url, web)
  {
    var html := web.fetch(url);
    if html.None? || html.value == [] {
      return map[];
    }
    var page := web.soup(html.value);
    var image := FirstYield(page, ImageSelectors, "content", "href");
    var rawPrice := FirstYield(page, PriceSelectors, "content", "value");
    details := Details(image, rawPrice);
  }

  // ---------------------------------------------------------------------
  // Merging previews

  /** The `link` of an offer. */
  function LinkOf(item: Item): string {
    if "link" in item && item["link"].VStr? then item["link"].s else []
  }

  /** One offer after its preview is merged in: an image only where the
      offer has none, a price (with its value) only where it has none. */
  function Merged(item: Item, preview: Item): Item {
    var item := if Truthy(Get(preview, "image")) && !Truthy(Get(item, "image")) then item["image" := preview["image"]] else item;
    if Truthy(Get(preview, "price")) && !Truthy(Get(item, "price")) then
      var item := item["price" := preview["price"]];
      if Get(preview, "price_value") != VNone then item["price_value" := preview["price_value"]] else item
    else item
  }

  /** The preview of each URL, as one function. */
  function PreviewsOf(web: Web): string -> Item {
    url => PreviewFor(url, web)
  }

  /** The offers after the first `MaxPreviewFetches` got their previews. */
  function MergedFirst(items: seq<Item>, previews: string -> Item): (r: seq<Item>)
    ensures |r| == |items|
  {
    seq(|items|, i requires 0 <= i < |items| =>
      if i < MaxPreviewFetches then Merged(items[i], previews(LinkOf(items[i]))) else items[i])
  }

  /** The merge loop of `scrape_websearch`, updating the offers in place. */
  method MergePreviews(a: array<Item>, web: Web)
    modifies a
    ensures a[..] == MergedFirst(old(a[..]), PreviewsOf(web))
  {
    var n := if a.Length < MaxPreviewFetches then a.Length else MaxPreviewFetches;
    for i := 0 to n
      invariant forall k :: 0 <= k < i ==> a[k] == MergedFirst(old(a[..]), PreviewsOf(web))[k]
      invariant forall k :: i <= k < a.Length ==> a[k] == old(a[k])
    {
      var preview := PreviewDetails(LinkOf(a[i]), web);
      a[i] := Merged(a[i], preview);
    }
  }

  /** A merge never touches a key but `image`, `price` and `price_value`;
      it replaces only a falsy image or price, and sets `price_value` only
      together with a new price. */
  lemma MergeFillsGaps(item: Item, preview: Item)
    ensures var m := Merged(item, preview);
      && (forall k :: k in item ==> k in m)
      && (forall k :: k in m && k != "image" && k != "price" && k != "price_value" ==> k in item && m[k] == item[k])
      && (Truthy(Get(item, "image")) ==> m["image"] == item["image"])
      && (Truthy(Get(item, "price")) ==> m["price"] == item["price"] && Get(m, "price_value") == Get(item, "price_value"))
      && (Get(m, "price_value") != Get(item, "price_value") ==> Get(m, "price") == Get(preview, "price") && !Truthy(Get(item, "price")))
  {
  }

  /** Offers from the sixth on are left as they are. */
  lemma MergeStopsAtFive(items: seq<Item>, previews: string -> Item, i: nat)
    requires MaxPreviewFetches <= i < |items|
    ensures MergedFirst(items, previews)[i] == items[i]
  {
  }

  /** The fields `_parse_results` gives every offer and a merge keeps: a
      title, a non-empty link, a source off DuckDuckGo, the "Visit site"
      label, and not in stock. */
  predicate OfferShape(it: Item) {
    && "title" in it && it["title"].VStr?
    && "link" in it && it["link"].VStr? && it["link"].s != []
    && "source" in it && it["source"].VStr? && !EndsWith(it["source"].s, SearchHost)
    && "stock_label" in it && it["stock_label"] == VStr("Visit site")
    && "in_stock" in it && it["in_stock"] == VBool(false)
  }

  /** Merging previews keeps the shape of every offer. */
  lemma MergedShape(items: seq<Item>, previews: string -> Item)
    requires forall it :: it in items ==> OfferShape(it)
    ensures forall it :: it in MergedFirst(items, previews) ==> OfferShape(it)
  {
    forall it | it in MergedFirst(items, previews)
      ensures OfferShape(it)
    {
      var i :| 0 <= i < |items| && MergedFirst(items, previews)[i] == it;
      assert items[i] in items;
      if i < MaxPreviewFetches {
        MergeFillsGaps(items[i], previews(LinkOf(items[i])));
      }
    }
  }

  // ---------------------------------------------------------------------
  // The scraper

  /** What `scrape_websearch(query)` returns. */
  function WebsearchResult(query: string, web: Web): seq<Item> {
    if Strip(query) == [] then []
    else
      var html := web.search(query);
      if html.None? || html.value == [] then []
      else MergedFirst(Capped(Kept(web.blocks(html.value), EntryOf(AllowGuides(query)))), PreviewsOf(web))
  }

  /** `scrape_websearch(query)`. */
  method ScrapeWebsearch(query: string, web: Web) returns (results: seq<Item>)
    ensures results == WebsearchResult(query, web)
  {
    if Strip(query) == [] {
      return [];
    }
    var html := web.search(query);
    if html.None? || html.value == [] {
      return [];
    }
    var parsed := ParseResults(web.blocks(html.value), query);
    results := MergeAll(parsed, web);
  }

  /** The offers of `_parse_results`, merged with their previews in place. */
  method MergeAll(parsed: seq<Item>, web: Web) returns (results: seq<Item>)
    ensures results == MergedFirst(parsed, PreviewsOf(web))
  {
    var a := new Item[|parsed|](i requires 0 <= i < |parsed| => parsed[i]);
    assert a[..] == parsed;
    MergePreviews(a, web);
    results := a[..];
  }

  /** A blank query gives nothing. */
  lemma BlankQueryNoResults(query: string, web: Web)
    requires IsBlank(query)
    ensures WebsearchResult(query, web) == []
  {
    StripEmptyIffBlank(query);
  }

  /** Every offer of the result blocks has the shape of `OfferShape`. */
  lemma KeptShape(blocks: seq<Block>, allowGuides: bool)
    ensures forall it :: it in Kept(blocks, EntryOf(allowGuides)) ==> OfferShape(it)
  {
    KeptFrom(blocks, EntryOf(allowGuides));
    forall it | it in Kept(blocks, EntryOf(allowGuides))
      ensures OfferShape(it)
    {
      var j :| 0 <= j < |blocks| && EntryOf(allowGuides)(blocks[j]) == Some(it);
      var b := blocks[j];
      assert Entry(b, allowGuides) == Some(it);
      var a := b.anchor.value;
      KeepShape(a.title, b.snippet, BlockLink(a), DomainFor(BlockLink(a)), allowGuides);
    }
  }

  /** At most `MaxResults` offers come back, each in the shape of
      `OfferShape`. */
  lemma WebsearchShape(query: string, web: Web)
    ensures |WebsearchResult(query, web)| <= MaxResults
    ensures forall it :: it in WebsearchResult(query, web) ==> OfferShape(it)
  {
    if WebsearchResult(query, web) != [] {
      var blocks := web.blocks(web.search(query).value);
      var kept := Kept(blocks, EntryOf(AllowGuides(query)));
      KeptShape(blocks, AllowGuides(query));
      assert forall it :: it in Capped(kept) ==> it in kept;
      MergedShape(Capped(kept), PreviewsOf(web));
    }
  }
}
