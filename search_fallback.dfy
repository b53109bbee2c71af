/** The source fallback of search.py: the model-backed search is asked
    first, and only when it yields nothing do the scrapers run, one after
    the other, each failure isolated. Every source is a parameter; the
    calls the search makes are recorded in a log it returns. */
module SearchFallback {
  import opened Values
  import opened Text

  /** What calling a source gives: the items it produced, or an exception
      (raised by the call or while listing its results). */
  datatype Outcome = Returned(items: seq<Item>) | Raised

  /** An entry of `SCRAPER_SOURCES`: a name and the scraper. */
  datatype Source = Source(name: string, run: string -> Outcome)

  /** One call of a source with a query. */
  datatype Call = Call(source: string, query: string)

  /** The name the log gives the model-backed search. */
  const AiSourceName: string := "OpenAI"

  /** What a source contributes: its items, or nothing when it raised. */
  function Contribution(o: Outcome): seq<Item> {
    if o.Returned? then o.items else []
  }

  /** The items of all scrapers, in their order. */
  function Collected(sources: seq<Source>, query: string): seq<Item> {
    if sources == [] then []
    else Collected(sources[..|sources| - 1], query) + Contribution(sources[|sources| - 1].run(query))
  }

  /** One call of each source, in order, with the same query. */
  function CallsOf(sources: seq<Source>, query: string): (r: seq<Call>)
    ensures |r| == |sources|
  {
    seq(|sources|, i requires 0 <= i < |sources| => Call(sources[i].name, query))
  }

  /** `_run_scrapers(query)`: the results of every scraper that returns, in
      order; a scraper that raises is skipped and the loop goes on. */
  method RunScrapers(query: string, sources: seq<Source>) returns (results: seq<Item>, calls: seq<Call>)
    ensures results == Collected(sources, query)
    ensures calls == CallsOf(sources, query)
  {
    results := [];
    calls := [];
    var i := 0;
    while i < |sources|
      invariant 0 <= i <= |sources|
      invariant results == Collected(sources[..i], query)
      invariant calls == CallsOf(sources[..i], query)
    {
      assert sources[..i + 1][..i] == sources[..i];
      var outcome := sources[i].run(query);
      calls := calls + [Call(sources[i].name, query)];
      if outcome.Raised? {
        i := i + 1;
        continue;
      }
      results := results + outcome.items;
      i := i + 1;
    }
    assert sources[..i] == sources;
  }

  /** The result of `search_products(query)`. */
  function SearchProductsResult(query: string, ai: string -> Outcome, sources: seq<Source>): seq<Item> {
    if Strip(query) == [] then []
    else
      var aiResults := Contribution(ai(query));
      if aiResults != [] then aiResults else Collected(sources, query)
  }

  /** The calls `search_products(query)` makes. */
  function SearchProductsCalls(query: string, ai: string -> Outcome, sources: seq<Source>): seq<Call> {
    if Strip(query) == [] then []
    else if Contribution(ai(query)) != [] then [Call(AiSourceName, query)]
    else [Call(AiSourceName, query)] + CallsOf(sources, query)
  }

  /** `search_products(query)`: a blank query gives nothing; otherwise the
      model-backed search is tried (an exception counts as no result), and
      the scrapers run only when it found nothing. */
  method SearchProducts(query: string, ai: string -> Outcome, sources: seq<Source>)
    returns (results: seq<Item>, calls: seq<Call>)
    ensures results == SearchProductsResult(query, ai, sources)
    ensures calls == SearchProductsCalls(query, ai, sources)
  {
    if Strip(query) == [] {
      return [], [];
    }
    var aiResults: seq<Item> := [];
    var outcome := ai(query);
    calls := [Call(AiSourceName, query)];
    if outcome.Returned? {
      aiResults := outcome.items;
    }
    if aiResults != [] {
      return aiResults, calls;
    }
    var scraped, scraperCalls := RunScrapers(query, sources);
    results := scraped;
    calls := calls + scraperCalls;
  }

  /** A blank query gives nothing and calls no source. */
  lemma BlankQueryCallsNothing(query: string, ai: string -> Outcome, sources: seq<Source>)
    requires IsBlank(query)
    ensures SearchProductsResult(query, ai, sources) == []
    ensures SearchProductsCalls(query, ai, sources) == []
  {
    StripEmptyIffBlank(query);
  }

  /** A non-empty answer of the model-backed search is returned as it is,
      and no scraper runs. */
  lemma AiAnswerWins(query: string, ai: string -> Outcome, sources: seq<Source>)
    requires !IsBlank(query)
    requires ai(query).Returned? && ai(query).items != []
    ensures SearchProductsResult(query, ai, sources) == ai(query).items
    ensures SearchProductsCalls(query, ai, sources) == [Call(AiSourceName, query)]
  {
    StripEmptyIffBlank(query);
  }

  /** An exception of the model-backed search is handled exactly as an
      empty answer. */
  lemma AiFailureIsEmpty(query: string, failing: string -> Outcome, empty: string -> Outcome, sources: seq<Source>)
    requires failing(query) == Raised && empty(query) == Returned([])
    ensures SearchProductsResult(query, failing, sources) == SearchProductsResult(query, empty, sources)
    ensures SearchProductsCalls(query, failing, sources) == SearchProductsCalls(query, empty, sources)
  {
  }

  /** Otherwise the result is what the scrapers collect, and each scraper is
      called once, in order, with the query. */
  lemma FallbackRunsEveryScraper(query: string, ai: string -> Outcome, sources: seq<Source>)
    requires !IsBlank(query)
    requires Contribution(ai(query)) == []
    ensures SearchProductsResult(query, ai, sources) == Collected(sources, query)
    ensures var calls := SearchProductsCalls(query, ai, sources);
      && |calls| == |sources| + 1
      && calls[0] == Call(AiSourceName, query)
      && forall i :: 0 <= i < |sources| ==> calls[i + 1] == Call(sources[i].name, query)
  {
    StripEmptyIffBlank(query);
  }

  /** The scrapers' results are the concatenation of each one's results. */
  lemma {:induction false} CollectedAppend(a: seq<Source>, b: seq<Source>, query: string)
    ensures Collected(a + b, query) == Collected(a, query) + Collected(b, query)
    decreases |b|
  {
    if b == [] {
      assert a + b == a;
    } else {
      var b' := b[..|b| - 1];
      CollectedAppend(a, b', query);
      assert (a + b)[..|a + b| - 1] == a + b';
      assert (a + b)[|a + b| - 1] == b[|b| - 1];
      var last := Contribution(b[|b| - 1].run(query));
      calc {
        Collected(a + b, query);
        Collected(a + b', query) + last;
        (Collected(a, query) + Collected(b', query)) + last;
        Collected(a, query) + (Collected(b', query) + last);
        Collected(a, query) + Collected(b, query);
      }
    }
  }

  /** A scraper that raises contributes nothing, and the scrapers after it
      still contribute. */
  lemma RaisingScraperSkipped(before: seq<Source>, s: Source, after: seq<Source>, query: string)
    requires s.run(query) == Raised
    ensures Collected(before + [s] + after, query) == Collected(before, query) + Collected(after, query)
  {
    var init := before + [s];
    assert init[..|init| - 1] == before;
    assert Collected(init, query) == Collected(before, query);
    CollectedAppend(init, after, query);
  }
}
