# PriceScout offer handling, in Dafny

This project models how the PriceScout backend handles product offers in memory, and proves properties of that model. It covers six parts:

- **Price reading.** `parse_price` turns price text into a number. Examples are "Starting at $1,234.50", "$10–$20" and "Free".
- **Result post-processing.** The search endpoint coerces prices, guards the relevance score, flags the best price in place, and sorts by the chosen mode. It also filters by stock and enriches each offer.
- **Offline catalog.** A keyword-overlap score ranks catalog entries. The search sorts the matches best score first, then cheapest first among equal scores, and truncates to a limit.
- **Source fallback.** The model-backed search runs first. The scrapers run, one after another, only when it finds nothing, and a scraper that raises is skipped.
- **Model responses.** The list of offers is picked out of a decoded JSON document. The JSON array is found in the model's text, first as the whole text and then as the bracketed span the regular expression finds. Each offer is filled in with six keys.
- **Web search.** DuckDuckGo result blocks become offers:
  - redirect links are unwrapped;
  - the domain is read off the link;
  - repair guides are dropped unless the query asks for a guide;
  - at most ten offers are kept;
  - the first five get an image and a price from a preview of their page.

Python dictionaries are `map<string, Value>`, where `Value` is the dynamically typed value (`values.dfy`). The `str` built-ins the code relies on are in `text.dfy`. The subset of `urllib.parse` that the web search uses is in `url_parse.dfy`:

- `urlsplit`/`urlparse`;
- `parse_qs`, for application/x-www-form-urlencoded queries;
- `unquote`, which is percent-decoding per section 2.1 of RFC 3986 followed by UTF-8 decoding with replacement;
- `quote`, as the partner of `unquote`.

Python's stable `sorted`/`list.sort` with tuple keys is in `stable_sort.dfy`.

Code that changes state in place is imperative Dafny: `_mark_best_price` and the preview merge of `scrape_websearch` work on an `array<Item>`. Loops that append to a list are methods with loop invariants, each proved equal to a specification function:

- the enrichment loop of `search()`;
- the scoring loop of the catalog search;
- `_run_scrapers`;
- the block loop of `_parse_results`;
- the selector loops of `_preview_details_for`.

The properties are lemmas about those functions.

Where Python raises, the model returns `Err`. This covers a `TypeError` in the sort keys or comparisons, and the `ValueError` of `float()` on a price string. Library code the model cannot see is a parameter:

- `difflib` ratio;
- `float()` of a string;
- `str()` of a non-string;
- `json.loads`;
- the SDK call;
- page fetches;
- BeautifulSoup selection.

## Model

| member | source | states |
|---|---|---|
| PriceParser.ParsePrice | scrapers/utils.py:58-83 | the price is never negative |
| PriceParser.LeadInAt | scrapers/utils.py:68 | a lead-in match has length 0, 4 ("from") or 11 ("starting at") and stays inside the text |
| PriceParser.RemovalStep | scrapers/utils.py:68 | one step of the substitution: a matched phrase is deleted and scanning resumes after it; otherwise the character is kept |
| PriceParser.ScanAligned | scrapers/utils.py:68 | two left-to-right deletion scans that see the same characters and the same match lengths from some point on produce the same text |
| PriceParser.LeadInAtShift | scrapers/utils.py:68 | the same phrase is found at corresponding positions of `p + t` and `t`, unless `p` and `t` join between two word characters at the first position |
| PriceParser.RemovalOnSuffix | scrapers/utils.py:68 | scanning `p + t` from a position inside `t` deletes what scanning `t` alone deletes, unless `p` and `t` join between two word characters at the very first position |
| PriceParser.LeadInAtStart | scrapers/utils.py:68 | "from" or "starting at", in any letter case, followed by a non-word character or the end, is matched at the start with its full length |
| PriceParser.LeadInDeleted | scrapers/utils.py:68 | such a leading phrase is deleted and nothing else changes |
| PriceParser.LeadInIgnored | scrapers/utils.py:67-68 | a leading "From"/"Starting at" in any case never changes the price |
| PriceParser.PhraseStartsWithLetter | scrapers/utils.py:68 | a matched phrase starts with an ASCII letter |
| PriceParser.LeadInChars | scrapers/utils.py:68 | every character of a matched phrase is a letter or a space |
| PriceParser.RemovalKeeps | scrapers/utils.py:68 | a character that cannot belong to a phrase occurs after the deletion exactly when it occurred before |
| PriceParser.UnifyKeeps | scrapers/utils.py:71 | replacing en dashes and deleting commas keeps every other character's presence |
| PriceParser.UnifyHyphen | scrapers/utils.py:71 | after step 2 a hyphen is present iff the text had a hyphen or an en dash |
| PriceParser.NormalizeKeepsDigits | scrapers/utils.py:67-71 | normalisation neither adds nor removes the presence of a digit |
| PriceParser.NormalizeHyphen | scrapers/utils.py:71-79 | the range test sees a hyphen iff the text has "-" or U+2013; no other dash counts |
| PriceParser.DigitRun | scrapers/utils.py:74 | the longest prefix of ASCII digits: all digits, followed by a non-digit or the end |
| PriceParser.Numbers | scrapers/utils.py:74 | every number found is a non-empty digit run with an optional digit-run fraction |
| PriceParser.SkipsNonDigit | scrapers/utils.py:74 | a non-digit starts no number |
| PriceParser.ReadsWholeNumber | scrapers/utils.py:74 | a maximal digit run not followed by "." and a digit is one number, and scanning resumes after it |
| PriceParser.ReadsFraction | scrapers/utils.py:74 | digits, ".", digits form one number with a fraction, and scanning resumes after it |
| PriceParser.NumbersEmptyIffNoDigit | scrapers/utils.py:74-76 | no number is found iff the text has no digit |
| PriceParser.NoDigitNoPrice | scrapers/utils.py:74-76 | text without a digit parses to 0.0; text with one yields at least one number |
| PriceParser.RangeRule | scrapers/utils.py:79-83 | with "-" or an en dash and two numbers, the price is the mean of the first two and lies between them; otherwise it is the first number and later numbers are ignored |
| PriceParser.CommasIgnored | scrapers/utils.py:71 | in letter-free text, deleting every comma does not change the price |
| PriceParser.UnifyIgnoresCommas | scrapers/utils.py:71 | step 2 gives the same text with or without commas |
| PriceParser.NormalizePlain | scrapers/utils.py:67-71 | letter-free text without en dash or comma is its own normal form |
| PriceParser.NoLetterNoLeadIn | scrapers/utils.py:68 | text without letters loses nothing to the lead-in substitution |
| PriceParser.NumbersOfTwoPrices | scrapers/utils.py:74 | "$a", a non-digit separator, "$b" reads as exactly the two numbers a and b |
| PriceParser.NormalizeTwoPrices | scrapers/utils.py:71 | "$a–$b" normalises to "$a-$b" |
| PriceParser.EnDashRangeIsMidpoint | scrapers/utils.py:71-81 | "$a–$b" (en dash) is priced at the midpoint of a and b |
| PriceParser.EmDashIsNotRange | scrapers/utils.py:71-83 | "$a—$b" (em dash) is not a range: its price is a |
| PriceParser.PlainDecimal | scrapers/utils.py:74-83 | " $a.f" is priced at a.f |
| PriceParser.GroupedPriceUngrouped | scrapers/utils.py:71 | deleting the separator of " $a,b.f" gives " $ab.f" |
| PriceParser.ExampleStartingAt | scrapers/utils.py:67-83 | "Starting at $a,b.f" in any case is priced at ab.f |
| PriceParser.ExampleStartingAtThousand | tests/test_utils.py:4-5 | "Starting at $1,234.50" is priced at 1234.5 |
| PriceParser.ExampleEnDashRange | tests/test_utils.py:7-8 | "$10–$20" is priced at 15 |
| PriceParser.ExampleEmDash | scrapers/utils.py:71-83 | "$10—$20" with an em dash is priced at 10 |
| PriceParser.ExampleFree | tests/test_utils.py:10-11 | "Free" is priced at 0.0 |
| PriceParser.ExampleTwoPoints | scrapers/utils.py:74 | "1.2.3" holds 1.2 then 3, and its price is 1.2 |
| PriceParser.ExampleThousands | scrapers/utils.py:71 | "1,234" and "1234" have the same price |
| App.PriceValue | app.py:23-30 | numbers (booleans included) become floats; a non-blank string gives its parsed price; anything else gives no price, and these are the only cases with a price |
| App.PriceValueOfText | app.py:28-29 | a non-blank price text gives a price of at least 0 |
| App.RelevanceGuard | app.py:33-40 | a blank query or an empty title text scores 0.0; otherwise the score is the ratio of the lower-cased query and title text |
| App.NoTitleNoRelevance | app.py:36-38 | a missing, falsy or blank title scores 0.0 whatever the query |
| App.MinPriceIsLeast | app.py:46-50 | the minimum is absent iff no item has a price; otherwise it is one item's price and at most every price |
| App.MarkBestPrice | app.py:43-52 | the in-place loop leaves exactly the flagged items of `MarkedBest` in the array |
| App.MarkWithoutPrices | app.py:46-48 | with no priced item the list is untouched |
| App.MarkFlags | app.py:50-52 | otherwise each item gains only `best_price`, which is true iff its price is the least of all prices; other keys and the order are unchanged |
| App.MarkSomeBest | app.py:50-52 | when some item is priced, some item is flagged true |
| App.MarkedKeepsPrices | app.py:51-52 | the flags change no key but `best_price` |
| App.SortResults | app.py:55-74 | `Err` (the `TypeError`) iff some pair of keys cannot be compared; otherwise a list of the same length |
| App.SortResultsOrder | app.py:55-74 | the sorted list is a permutation of the input, in the mode's key order, with equal keys in input order |
| App.SortModesAgree | app.py:64-74 | "match" and every mode other than "price" give the same result |
| App.PriceModeOrder | app.py:58-62 | price mode runs from the cheapest up; after an offer without a price only offers without a numeric price follow; equal prices put the more relevant first |
| App.IncomparableNeighbours | app.py:58-74 | when the list holds an incomparable pair, every order a comparison sort could end in has an incomparable neighbour pair, so Python raises |
| App.InStock | app.py:90-91 | the filter keeps only items with a truthy `in_stock`, each taken from the input |
| App.InStockKeeps | app.py:90-91 | the filter keeps every item with a truthy `in_stock` as often as the input holds it, and no other item |
| App.InStockAppend | app.py:90-91 | filtering a concatenation concatenates the filtered parts, so the input order is kept |
| App.EnrichedWithKeys | app.py:95-99 | an enriched copy adds only `relevance`, and `price_value` only when a price was derived; every other key keeps its value |
| App.EnrichedAll | app.py:93-100 | one enriched item per result |
| App.EnrichAll | app.py:93-100 | the enrichment loop builds exactly `EnrichedAll` |
| App.EnrichedMarked | app.py:93-102 | after enrichment and flags, the i-th offer keeps the i-th found offer's other keys and carries the relevance of its title |
| App.Search | app.py:78-103 | the handler body computes `SearchResult` |
| App.SearchPermutes | app.py:102-103 | the handler returns a permutation of the flagged, enriched offers found |
| App.SearchInStockOnly | app.py:80-91 | with `inStock=true` every offer returned is in stock |
| App.SearchKeepsOffers | app.py:80-103 | every offer found that the stock filter admits comes back, with its other keys unchanged |
| App.RelevanceScore | app.py:33-40 | stated by `App.RelevanceGuard` and `App.NoTitleNoRelevance` |
| App.MarkedBest | app.py:43-52 | stated by `App.MarkFlags`, `App.MarkWithoutPrices`, `App.MarkSomeBest` and `App.MarkedKeepsPrices`; the in-place loop is `App.MarkBestPrice` |
| App.SearchResult | app.py:78-103 | stated by `App.SearchPermutes`, `App.SearchInStockOnly` and `App.SearchKeepsOffers`; the handler is `App.Search` |
| LocalCatalog.LongTokensFrom | scrapers/local_catalog.py:129 | every token is longer than two characters and is one of the query's words |
| LocalCatalog.ShortWordIgnored | scrapers/local_catalog.py:129 | a word of at most two characters never becomes a token |
| LocalCatalog.MatchScore | scrapers/local_catalog.py:128-131 | the score is at most the number of tokens |
| LocalCatalog.MatchScorePositive | scrapers/local_catalog.py:128-131 | the score is positive iff some token occurs in the lower-cased text |
| LocalCatalog.CountAppend | scrapers/local_catalog.py:131 | the count is additive, so a duplicated token counts twice |
| LocalCatalog.SliceEnd | scrapers/local_catalog.py:153 | `xs[:limit]` stops at `limit` (capped at the length), or counts from the end for a negative limit |
| LocalCatalog.ScoreCatalog | scrapers/local_catalog.py:145-150 | the scoring loop builds exactly the `(score, item)` pairs of the matching entries, in catalog order |
| LocalCatalog.ScoredFacts | scrapers/local_catalog.py:146-150 | every pair holds a catalog entry and its nonzero score |
| LocalCatalog.ScoredComplete | scrapers/local_catalog.py:145-150 | every catalog entry with a nonzero score is scored as often as the catalog holds it, and no other entry is |
| LocalCatalog.ScrapeLocalCatalog | scrapers/local_catalog.py:134-153 | the search computes `CatalogResult` |
| LocalCatalog.BlankQueryFindsNothing | scrapers/local_catalog.py:142-143 | a blank query finds nothing |
| LocalCatalog.CatalogResult | scrapers/local_catalog.py:134-153 | stated by `LocalCatalog.CatalogResultMatches`, `LocalCatalog.CatalogResultCount`, `LocalCatalog.CatalogResultOrder`, `LocalCatalog.CatalogResultBest` and `LocalCatalog.CatalogTiesKeepOrder` |
| LocalCatalog.CatalogResultMatches | scrapers/local_catalog.py:145-153 | every entry returned is a catalog entry that matches; no more than the catalog holds, and no more than `limit` for a limit that is not negative |
| LocalCatalog.CatalogResultCount | scrapers/local_catalog.py:145-153 | for a non-blank query, as many entries as `[:limit]` leaves of the matching entries: `min(limit, matches)` for a limit that is not negative |
| LocalCatalog.CatalogResultBest | scrapers/local_catalog.py:145-153 | a matching entry left out by the limit ranks no better than any entry returned: lower score, or equal score and a price that is not lower |
| LocalCatalog.CatalogResultOrder | scrapers/local_catalog.py:152 | entries come best score first and, among equal scores, cheapest first |
| LocalCatalog.CatalogTiesKeepOrder | scrapers/local_catalog.py:152-153 | the returned entries with equal score and price are the first of those in the catalog, in catalog order |
| SearchFallback.RunScrapers | search.py:27-39 | the loop returns each scraper's items in order, skipping raisers, and calls each scraper once with the query |
| SearchFallback.SearchProducts | search.py:42-63 | the result and the calls are those of the blank guard, the model answer and the fallback |
| SearchFallback.BlankQueryCallsNothing | search.py:50-51 | a blank query returns nothing and calls no source |
| SearchFallback.AiAnswerWins | search.py:53-60 | a non-empty model answer is returned unchanged and no scraper runs |
| SearchFallback.AiFailureIsEmpty | search.py:54-57 | an exception of the model search is handled exactly like an empty answer |
| SearchFallback.FallbackRunsEveryScraper | search.py:59-63 | otherwise the result is what the scrapers collect, and each scraper is called exactly once, in order, with the query |
| SearchFallback.CollectedAppend | search.py:29-37 | the collected items of two lists of scrapers are the concatenation of each list's |
| SearchFallback.RaisingScraperSkipped | search.py:30-34 | a raising scraper contributes nothing and the ones after it still contribute |
| OpenAISearch.Dicts | openai_search.py:153 | the kept items are exactly the objects of the list |
| OpenAISearch.DictsOfObjects | openai_search.py:152-153 | a list of objects gives all of them, in order |
| OpenAISearch.FirstList | openai_search.py:156-159 | the list under the first key holding a list; none iff no key holds a list |
| OpenAISearch.CoerceObject | openai_search.py:155-159 | an object gives the objects of the list under the first preferred key holding a list; keys with other values are passed over |
| OpenAISearch.CoerceNothing | openai_search.py:161 | anything else gives nothing |
| OpenAISearch.CoerceArray | openai_search.py:149-161 | stated by `OpenAISearch.DictsOfObjects`, `OpenAISearch.CoerceObject` and `OpenAISearch.CoerceNothing` |
| OpenAISearch.SearchSpan | openai_search.py:187-189 | the span found starts at the first position where a match exists |
| OpenAISearch.MatchAtSound | openai_search.py:56 | the end found is a match of `\[\s*\{.*\}\s*\]` and the longest at its start |
| OpenAISearch.MatchAtComplete | openai_search.py:56 | where a match starts, one is found |
| OpenAISearch.SearchSpanIsLeftmostLongest | openai_search.py:187-189 | the span is the leftmost match and the longest at that start, and none is found iff the pattern does not occur |
| OpenAISearch.ExtractEmpty | openai_search.py:172-173 | empty text gives nothing |
| OpenAISearch.ExtractWhole | openai_search.py:175-185 | text that parses whole into something with offers gives those offers |
| OpenAISearch.ExtractFromSpan | openai_search.py:187-196 | otherwise the parsed span's offers are returned |
| OpenAISearch.ExtractFails | openai_search.py:187-194 | with no span, or a span that does not parse, nothing is found |
| OpenAISearch.ExtractJsonArray | openai_search.py:164-196 | stated by `OpenAISearch.ExtractEmpty`, `OpenAISearch.ExtractWhole`, `OpenAISearch.ExtractFromSpan` and `OpenAISearch.ExtractFails`, with the span of `OpenAISearch.SearchSpanIsLeftmostLongest` |
| OpenAISearch.FloatOf | openai_search.py:204 | numbers convert; a string converts iff the library `float` accepts it; None, lists and objects raise |
| OpenAISearch.NormalizeShape | openai_search.py:199-209 | exactly the six keys; absent keys take their defaults and present ones keep their values; the price is a float and the stock flag is a bool equal to the value's truthiness |
| OpenAISearch.NormalizePrice | openai_search.py:204 | an absent or falsy price becomes 0.0; a number keeps its value |
| OpenAISearch.NormalizeRaises | openai_search.py:204 | a price string `float` rejects, or a truthy list or object, makes the normalisation raise |
| OpenAISearch.StockTextIsTruthy | openai_search.py:205 | any non-empty stock text, "false" included, counts as in stock |
| OpenAISearch.NormalizeComplete | openai_search.py:199-209 | a complete offer with a nonzero float price and a bool flag is left as it is |
| OpenAISearch.NormalizeResult | openai_search.py:199-209 | stated by `OpenAISearch.NormalizeShape`, `OpenAISearch.NormalizePrice`, `OpenAISearch.NormalizeRaises` and `OpenAISearch.NormalizeComplete` |
| OpenAISearch.NormalizeAll | openai_search.py:246 | succeeds iff every item normalises, one result per item, in order |
| OpenAISearch.SearchOpenAIGuards | openai_search.py:221-243 | a blank query, a failed call or an empty answer gives no offers |
| OpenAISearch.SearchOpenAIPerItem | openai_search.py:245-246 | each extracted offer gives one normalised offer, in order |
| OpenAISearch.SearchOpenAI | openai_search.py:212-246 | stated by `OpenAISearch.SearchOpenAIGuards` and `OpenAISearch.SearchOpenAIPerItem` |
| OpenAISearch.ExampleSingleOffer | openai_search.py:175-185 | an answer holding one complete offer comes back as that offer |
| UrlParse.Find | scrapers/websearch.py:35 | the first index of a character, or -1 iff it is absent |
| UrlParse.DecodeEncode | scrapers/websearch.py:44 | UTF-8 decoding inverts UTF-8 encoding |
| UrlParse.PercentDecodeQuote | scrapers/websearch.py:44 | percent-decoding a quoted string gives its UTF-8 bytes |
| UrlParse.UnquoteIsRuns | scrapers/websearch.py:44 | `unquote`'s no-`%` shortcut agrees with its run-by-run decoding |
| UrlParse.UnquoteQuote | scrapers/websearch.py:44 | `unquote(quote(s)) == s` for every string |
| UrlParse.Unquote | scrapers/websearch.py:44 | stated by `UrlParse.UnquoteQuote` and `UrlParse.UnquoteIsRuns` |
| UrlParse.QuoteChars | scrapers/websearch.py:44 | `quote` produces only safe characters, `%` and hex digits |
| UrlParse.PlusToSpace | scrapers/websearch.py:42 | `+` becomes a space and every other character stays |
| UrlParse.FieldOf | scrapers/websearch.py:42 | a field `name=value` with a non-empty value and no `+` gives the unquoted name and value |
| UrlParse.SingleField | scrapers/websearch.py:42-43 | a one-field query with a quoted value gives back that name and value, and it is the first value for the name |
| UrlParse.ParseQsl | scrapers/websearch.py:42 | stated by `UrlParse.FieldOf` and `UrlParse.SingleField` |
| UrlParse.SplitDelimiters | scrapers/websearch.py:35 | no part of a split URL holds a delimiter that ends it |
| UrlParse.SplitUrl | scrapers/websearch.py:22 | stated by `UrlParse.SplitDelimiters` and `UrlParse.SplitParts` |
| UrlParse.NetlocEnd | scrapers/websearch.py:35 | the authority ends at the first `/`, `?` or `#`, or at the end |
| UrlParse.RFind | scrapers/websearch.py:35 | the last index of a character, or -1 iff it is absent |
| UrlParse.WithoutParams | scrapers/websearch.py:35 | the path without its parameters is a prefix of the path |
| UrlParse.WithoutParamsCut | scrapers/websearch.py:35 | the cut is at the first `;` after the last `/`: it is a `;` no `/` follows, and every `;` kept has a `/` after it; no cut when no `;` follows the last `/` |
| UrlParse.WithoutParamsLastSegment | scrapers/websearch.py:35 | "/a;b/c;d" keeps "/a;b/c": only the last segment loses its parameters |
| UrlParse.Parse | scrapers/websearch.py:22-35 | `urlparse` fails iff `urlsplit` does and differs from it only in the path, which is the `urlsplit` path with `;params` cut off for the schemes that use them, and is not changed when it has no `;` |
| UrlParse.WithoutParamsPrefix | scrapers/websearch.py:40 | cutting `;params` off a path keeps every `;`-free prefix test |
| UrlParse.ParsedPathPrefix | scrapers/websearch.py:40 | the path `urlparse` reports starts with a `;`-free prefix iff the path does |
| UrlParse.SplitParts | scrapers/websearch.py:35 | an absolute URL `scheme://host path`, with or without `?query`, whose parts hold none of their delimiters splits back into those parts; the query is empty when there is none |
| UrlParse.ParseParts | scrapers/websearch.py:35 | `urlparse` gives the same parts, the path with its `;params` cut off for the schemes that use them |
| WebSearch.DomainFor | scrapers/websearch.py:20-25 | the domain is never empty |
| WebSearch.DomainForParse | scrapers/websearch.py:20-25 | the domain is the `urlparse` authority, or "Web" when it is empty or the parse fails |
| WebSearch.DomainIsHost | scrapers/websearch.py:20-23 | the domain of `scheme://host path`, with or without `?query`, is its host, as for "https://example.com/part-a" |
| WebSearch.LinkKept | scrapers/websearch.py:28-48 | a link that does not parse, whose host does not end in duckduckgo.com, or whose path does not start with `/l/` is returned unchanged |
| WebSearch.OtherLinksKept | scrapers/websearch.py:40-48 | so `scheme://host path`, with or without `?query`, is returned unchanged unless its host ends in duckduckgo.com and its path starts with `/l/` |
| WebSearch.ResolveLink | scrapers/websearch.py:28-48 | stated by `WebSearch.LinkKept`, `WebSearch.OtherLinksKept`, `WebSearch.RedirectTaken` and `WebSearch.RedirectResolved` |
| WebSearch.RedirectParts | scrapers/websearch.py:35 | a `/l/?uddg=` redirect parses into its scheme, host, path and query |
| WebSearch.RedirectTarget | scrapers/websearch.py:42-43 | the query of a redirect names its target as the first `uddg` value |
| WebSearch.RedirectTaken | scrapers/websearch.py:40-44 | a DuckDuckGo link whose path starts with `/l/` and whose query has a `uddg` value resolves to the first such value, unquoted |
| WebSearch.RedirectResolved | scrapers/websearch.py:40-44 | a redirect to a quoted target resolves to the target, unquoted a second time |
| WebSearch.RedirectResolvedAt | scrapers/websearch.py:40-44 | the same for any link that parses as such a redirect |
| WebSearch.RedirectPlainTarget | scrapers/websearch.py:40-44 | a target without `%` comes back as it is |
| WebSearch.GuideTestIgnoresCase | scrapers/websearch.py:107 | the guide test ignores the letter case of the title |
| WebSearch.GuideTitleSuffices | scrapers/websearch.py:106-115 | a title naming an indicator makes a guide, whatever the snippet |
| WebSearch.IsRepairGuide | scrapers/websearch.py:106-115 | stated by `WebSearch.GuideTestIgnoresCase` and `WebSearch.GuideTitleSuffices`; `WebSearch.KeepShape` states that guides are dropped unless allowed |
| WebSearch.KeepShape | scrapers/websearch.py:128-153 | a kept block gives its title, a non-empty link off DuckDuckGo, not in stock, no price, no image, "Visit site", and no guide unless guides are allowed |
| WebSearch.Capped | scrapers/websearch.py:155-156 | at most ten offers, a prefix of those kept, all of them when there are at most ten |
| WebSearch.KeptFrom | scrapers/websearch.py:123-153 | every offer comes from some block |
| WebSearch.KeptListed | scrapers/websearch.py:123-153 | no offer a block gives is lost |
| WebSearch.KeptPrefix | scrapers/websearch.py:123-156 | what a prefix of the blocks keeps starts what all of them keep |
| WebSearch.CollectFirst | scrapers/websearch.py:120-158 | the loop with its break returns the first ten kept values |
| WebSearch.ParseResults | scrapers/websearch.py:118-158 | the offers are the first ten kept blocks, with guides allowed iff the query mentions "guide" |
| WebSearch.KeptShape | scrapers/websearch.py:123-153 | every offer of the blocks has the parse-result shape |
| WebSearch.FirstFoundIsFirst | scrapers/websearch.py:69-93 | the first selector, in list order, that yields a value wins; none wins iff none yields one |
| WebSearch.FirstYield | scrapers/websearch.py:69-75 | the selector loop with its break returns the first value found |
| WebSearch.Details | scrapers/websearch.py:59-93 | an image iff one was found; a price iff one was found; a price value only with a price and only when it is nonzero; no other key |
| WebSearch.PreviewDetails | scrapers/websearch.py:51-95 | the fetch and the two selector loops compute `PreviewFor` |
| WebSearch.MergePreviews | scrapers/websearch.py:178-187 | the in-place loop leaves `MergedFirst` of the offers in the array |
| WebSearch.MergedFirst | scrapers/websearch.py:178 | the merge keeps the number of offers |
| WebSearch.MergeFillsGaps | scrapers/websearch.py:181-187 | only image, price and price_value can change; a truthy image or price is kept; a price value changes only with a newly set price |
| WebSearch.MergeStopsAtFive | scrapers/websearch.py:178-187 | offers from the sixth on are untouched |
| WebSearch.MergedShape | scrapers/websearch.py:178-187 | merging keeps the shape of every offer |
| WebSearch.Merged | scrapers/websearch.py:181-187 | stated by `WebSearch.MergeFillsGaps` and `WebSearch.MergedShape` |
| WebSearch.MergeAll | scrapers/websearch.py:176-189 | the merge over the parsed offers returns `MergedFirst` |
| WebSearch.ScrapeWebsearch | scrapers/websearch.py:161-189 | the scraper computes `WebsearchResult` |
| WebSearch.BlankQueryNoResults | scrapers/websearch.py:168-169 | a blank query gives nothing |
| WebSearch.WebsearchShape | scrapers/websearch.py:155-189 | at most ten offers, each with the parse-result shape |
| WebSearch.WebsearchResult | scrapers/websearch.py:161-189 | stated by `WebSearch.BlankQueryNoResults`, `WebSearch.WebsearchShape` and `WebSearch.MergeStopsAtFive`; the scraper is `WebSearch.ScrapeWebsearch` |
| StableSort.SortPermutes | app.py:59-74 | the sort returns a permutation of its input |
| StableSort.SortSorted | app.py:59-74 | the sort returns its input in key order |
| StableSort.SortStable | app.py:59-74 | elements with equal keys keep their input order |
| StableSort.KeyLeTotal | app.py:61 | tuple order on the keys is total, and keys equal under it are equal |
| Text.StripEmptyIffBlank | app.py:37 | `s.strip()` is empty iff `s` is all whitespace |
| Text.SplitEmptyIffBlank | scrapers/local_catalog.py:129 | `s.split()` is empty iff `s` is all whitespace |
| Text.ContainsIffOccurs | scrapers/local_catalog.py:131 | `needle in hay` iff the needle occurs at some index |

## Left out

- Letter case: `Text.Lower` lower-cases ASCII letters only. `\b` and `re.I` are restricted to ASCII in the same way, so non-ASCII case mapping and Unicode word characters are not modelled.
- `float` values are exact `real`s. Binary rounding of `float("…")`, NaN and negative zero are not modelled. `float("inf")` is the `PosInf` sort key.
- `App.PriceValue` converts every integer. Python's `float(int)` raises `OverflowError` for integers beyond the float range, and the model does not have that error path.
- `PriceParser.CommasIgnored` is stated for letter-free text only. Lead-in removal runs before commas are deleted, so deleting commas first could create or break a lead-in phrase.
- `App.RelevanceScore`: `difflib.SequenceMatcher.ratio` is an uninterpreted parameter. Only the blank-input guard is modelled.
- `App.SortResults`: an item whose `price_value` is present but `None` (as some scrapers produce) makes Python's tuple comparison raise `TypeError` whenever it meets a number. The model returns `Err` exactly when some pair of items cannot be compared. `App.IncomparableNeighbours` shows that every sort must then compare such a pair. Price values that are neither numbers nor `None` are excluded by the `PriceTyped` precondition.
- `App.Search`: Flask routing, `jsonify`, logging and the request object are left out. The arguments are a map and `search_products` is a parameter, `None` where it raises.
- `LocalCatalog.ScrapeLocalCatalog`: `CATALOG` is a parameter, whose entries are assumed to have a title and a numeric price (`CatalogShaped`), as the constant's entries do. `dict(entry)` copies are values, so "the catalog is never modified" holds by construction.
- `SearchFallback.RunScrapers` and `SearchFallback.SearchProducts`: each source is a function from the query to its items or an exception. The call log they return stands for the calls made. Logging is left out.
- `OpenAISearch.SearchOpenAI`: the SDK call (`_invoke_openai`, `_first_text_chunk`) and `json.loads` are parameters. The prompt text is not modelled.
- `UrlParse.SplitUrl`: the NFKC check on the authority, the port check, the bracketed-IPv6 validation beyond the bracket-pair `ValueError`, and the scheme rules of other Python versions are not modelled. `parse_qs`'s `max_num_fields` and strict parsing are left out.
- `WebSearch.DomainFor` reads the authority from `urlsplit`. `WebSearch.DomainForParse` proves that this equals the `urlparse` authority the source reads.
- `WebSearch.ParseResults` and `WebSearch.PreviewDetails`: BeautifulSoup selection is a parameter. A result block arrives as the fields the selectors extract, and a page as a lookup from a CSS selector to the first tag it selects. `get_text(" ", strip=True)` is taken as given, and attribute values are strings.
- `WebSearch.CollectFirst` is the block loop over a generic per-block function. The guide flag, resolving the link and naming the domain happen inside that function, in the order of the source.
- `_preview_image_for` is not modelled: nothing in the modelled code calls it.
- HTTP fetching (`safe_get`, `render_page`), the individual site scrapers and all logging are left out.
