/** The offline catalog matcher (scrapers/local_catalog.py): a keyword
    overlap score, and the search that keeps the matching catalog entries,
    best score first, cheapest first among equal scores, truncated to a
    limit. The catalog constant is a parameter. */
module LocalCatalog {
  import opened Values
  import opened Text
  import opened StableSort

  /** `_DEFAULT_RETURN_LIMIT`. */
  const DefaultReturnLimit: int := 10

  // ---------------------------------------------------------------------
  // _match_score
  // ---------------------------------------------------------------------

  /** The words longer than two characters, in order. */
  function LongTokens(words: seq<string>): (r: seq<string>)
    ensures |r| <= |words|
  {
    if words == [] then []
    else if |words[0]| > 2 then [words[0]] + LongTokens(words[1..])
    else LongTokens(words[1..])
  }

  /** The tokens `_match_score` looks for: the whitespace-separated words of
      the lower-cased query that are longer than two characters. */
  function QueryTokens(query: string): seq<string> {
    LongTokens(Split(Lower(query)))
  }

  /** Every token is longer than two characters and is one of the words. */
  lemma {:induction false} LongTokensFrom(words: seq<string>)
    ensures forall t :: t in LongTokens(words) ==> |t| > 2 && t in words
  {
    if words != [] {
      LongTokensFrom(words[1..]);
    }
  }

  /** How many of `tokens` occur in `hay`; a token listed twice counts
      twice. */
  function CountContained(tokens: seq<string>, hay: string): (n: nat)
    ensures n <= |tokens|
  {
    if tokens == [] then 0
    else (if Contains(hay, tokens[0]) then 1 else 0) + CountContained(tokens[1..], hay)
  }

  /** `_match_score(query, text)`. */
  function MatchScore(query: string, text: string): (n: nat)
    ensures n <= |QueryTokens(query)|
  {
    CountContained(QueryTokens(query), Lower(text))
  }

  /** The count is positive exactly when some token occurs. */
  lemma {:induction false} CountPositive(tokens: seq<string>, hay: string)
    ensures CountContained(tokens, hay) > 0 <==> exists t :: t in tokens && Contains(hay, t)
  {
    if tokens != [] {
      CountPositive(tokens[1..], hay);
      if Contains(hay, tokens[0]) {
        assert tokens[0] in tokens;
      }
      if exists t :: t in tokens && Contains(hay, t) {
        var t :| t in tokens && Contains(hay, t);
        assert t == tokens[0] || t in tokens[1..];
      }
    }
  }

  /** A query matches a text exactly when one of its long words occurs in
      the lower-cased text. */
  lemma MatchScorePositive(query: string, text: string)
    ensures MatchScore(query, text) > 0 <==> exists t :: t in QueryTokens(query) && Contains(Lower(text), t)
  {
    CountPositive(QueryTokens(query), Lower(text));
  }

  /** Every occurrence of a token counts, duplicates included. */
  lemma {:induction false} CountAppend(a: seq<string>, b: seq<string>, hay: string)
    ensures CountContained(a + b, hay) == CountContained(a, hay) + CountContained(b, hay)
  {
    if a == [] {
      assert a + b == b;
    } else {
      CountAppend(a[1..], b, hay);
      assert (a + b)[1..] == a[1..] + b;
    }
  }

  /** A word of at most two characters is never a token. */
  lemma {:induction false} ShortWordIgnored(a: seq<string>, w: string, b: seq<string>)
    requires |w| <= 2
    ensures LongTokens(a + [w] + b) == LongTokens(a + b)
  {
    if a == [] {
      assert a + [w] + b == [w] + b;
      assert ([w] + b)[1..] == b;
      assert a + b == b;
    } else {
      ShortWordIgnored(a[1..], w, b);
      assert (a + [w] + b)[0] == a[0] && (a + [w] + b)[1..] == a[1..] + [w] + b;
      assert (a + b)[0] == a[0] && (a + b)[1..] == a[1..] + b;
    }
  }

  // ---------------------------------------------------------------------
  // scrape_local_catalog
  // ---------------------------------------------------------------------

  /** Every catalog entry has a title and a numeric `price_value`, as the
      catalog constant does: the search reads `item['title']` of every entry
      and the sort key reads `price_value` of every match. */
  predicate CatalogShaped(catalog: seq<Item>) {
    forall i :: 0 <= i < |catalog| ==>
      "title" in catalog[i] && "price_value" in catalog[i] && AsNumber(catalog[i]["price_value"]).Some?
  }

  /** The text an entry is scored against: its title, a space and its
      keywords (empty when absent). */
  function ItemText(item: Item, lib: Library): string {
    StrOf(Get(item, "title"), lib) + " " + StrOf(GetOr(item, "keywords", VStr("")), lib)
  }

  /** The numeric price of a catalog entry. */
  function CatalogPrice(item: Item): Ext {
    match AsNumber(Get(item, "price_value"))
    case Some(v) => Fin(v)
    case None => PosInf
  }

  /** The score of a catalog entry. */
  function Score(query: string, item: Item, lib: Library): nat {
    MatchScore(query, ItemText(item, lib))
  }

  /** The sort key `(-score, price_value)` of a scored entry. */
  function PairKey(pair: (int, Item)): Key {
    Key(Fin(-(pair.0 as real)), CatalogPrice(pair.1))
  }

  /** The `(score, item)` pairs of the entries with a nonzero score, in
      catalog order. */
  function Scored(catalog: seq<Item>, query: string, lib: Library): seq<(int, Item)> {
    if catalog == [] then []
    else
      var init := Scored(catalog[..|catalog| - 1], query, lib);
      var item := catalog[|catalog| - 1];
      var score := Score(query, item, lib);
      if score != 0 then init + [(score, item)] else init
  }

  /** Where Python's `xs[:limit]` stops on a list of length `n`: a negative
      limit counts from the end. */
  function SliceEnd(limit: int, n: nat): (e: nat)
    ensures e <= n
    ensures limit >= 0 ==> e == if limit < n then limit else n
    ensures limit < 0 ==> e == if n + limit > 0 then n + limit else 0
  {
    if limit >= 0 then (if limit < n then limit else n)
    else if n + limit > 0 then n + limit else 0
  }

  /** The entries of the pairs, in order. */
  function Entries(pairs: seq<(int, Item)>): (r: seq<Item>)
    ensures |r| == |pairs|
    ensures forall i :: 0 <= i < |pairs| ==> r[i] == pairs[i].1
  {
    seq(|pairs|, i requires 0 <= i < |pairs| => pairs[i].1)
  }

  /** The `(score, item)` pairs `scrape_local_catalog(query, limit)` keeps:
      the scored pairs sorted by their key, then cut at `limit`. */
  function CatalogPairs(query: string, limit: int, catalog: seq<Item>, lib: Library): seq<(int, Item)> {
    if Strip(query) == [] then []
    else
      var sorted := SortBy(Scored(catalog, query, lib), PairKey);
      sorted[..SliceEnd(limit, |sorted|)]
  }

  /** What `scrape_local_catalog(query, limit)` returns. */
  function CatalogResult(query: string, limit: int, catalog: seq<Item>, lib: Library): seq<Item>
    requires CatalogShaped(catalog)
  {
    Entries(CatalogPairs(query, limit, catalog, lib))
  }

  /** The scoring loop of `scrape_local_catalog`: the `(score, item)` pairs
      of the matching entries, appended in catalog order. */
  method ScoreCatalog(query: string, catalog: seq<Item>, lib: Library) returns (scored: seq<(int, Item)>)
    ensures scored == Scored(catalog, query, lib)
  {
    scored := [];
    var i := 0;
    while i < |catalog|
      invariant 0 <= i <= |catalog|
      invariant scored == Scored(catalog[..i], query, lib)
    {
      var item := catalog[i];
      var score := Score(query, item, lib);
      if score != 0 {
        scored := scored + [(score, item)];
      }
      assert catalog[..i + 1][..i] == catalog[..i];
      i := i + 1;
    }
    assert catalog[..i] == catalog;
  }

  /** `scrape_local_catalog(query, limit)`: the matching entries are sorted
      in place and cut at `limit`. */
  method ScrapeLocalCatalog(query: string, limit: int, catalog: seq<Item>, lib: Library)
    returns (r: seq<Item>)
    requires CatalogShaped(catalog)
    ensures r == CatalogResult(query, limit, catalog, lib)
  {
    if Strip(query) == [] {
      return [];
    }
    var scored := ScoreCatalog(query, catalog, lib);
    scored := SortBy(scored, PairKey);
    r := Entries(scored[..SliceEnd(limit, |scored|)]);
  }

  /** Every scored pair holds a catalog entry and its nonzero score. */
  lemma {:induction false} ScoredFacts(catalog: seq<Item>, query: string, lib: Library)
    ensures |Scored(catalog, query, lib)| <= |catalog|
    ensures forall p :: p in Scored(catalog, query, lib) ==>
      p.1 in catalog && p.0 == Score(query, p.1, lib) && p.0 > 0
  {
    if catalog != [] {
      var init := catalog[..|catalog| - 1];
      ScoredFacts(init, query, lib);
      assert forall x :: x in init ==> x in catalog;
    }
  }

  /** Every matching catalog entry is scored, as often as the catalog lists
      it, and no other entry is. */
  lemma {:induction false} ScoredComplete(catalog: seq<Item>, query: string, lib: Library)
    ensures forall x :: multiset(Entries(Scored(catalog, query, lib)))[x] ==
                          (if Score(query, x, lib) > 0 then multiset(catalog)[x] else 0)
  {
    if catalog != [] {
      var init := catalog[..|catalog| - 1];
      var item := catalog[|catalog| - 1];
      ScoredComplete(init, query, lib);
      assert catalog == init + [item];
      assert multiset(catalog) == multiset(init) + multiset{item};
      var s := Scored(init, query, lib);
      if Score(query, item, lib) != 0 {
        assert Entries(s + [(Score(query, item, lib), item)]) == Entries(s) + [item];
      }
    }
  }

  /** A blank query finds nothing. */
  lemma BlankQueryFindsNothing(query: string, limit: int, catalog: seq<Item>, lib: Library)
    requires CatalogShaped(catalog)
    requires IsBlank(query)
    ensures CatalogResult(query, limit, catalog, lib) == []
  {
    StripEmptyIffBlank(query);
  }

  /** Every entry returned is a catalog entry that matches the query, and
      there are at most `limit` of them (for a limit that is not
      negative). */
  lemma CatalogResultMatches(query: string, limit: int, catalog: seq<Item>, lib: Library)
    requires CatalogShaped(catalog)
    ensures var r := CatalogResult(query, limit, catalog, lib);
      && |r| <= |catalog|
      && (limit >= 0 ==> |r| <= limit)
      && forall o :: o in r ==> o in catalog && Score(query, o, lib) > 0
  {
    if Strip(query) != [] {
      var scored := Scored(catalog, query, lib);
      var sorted := SortBy(scored, PairKey);
      ScoredFacts(catalog, query, lib);
      SortPermutes(scored, PairKey);
      forall p | p in sorted
        ensures p.1 in catalog && Score(query, p.1, lib) > 0
      {
        assert p in multiset(scored);
      }
      EntriesFrom(sorted, SliceEnd(limit, |sorted|), query, catalog, lib);
    }
  }

  lemma EntriesFrom(pairs: seq<(int, Item)>, e: nat, query: string, catalog: seq<Item>, lib: Library)
    requires forall p :: p in pairs ==> p.1 in catalog && Score(query, p.1, lib) > 0
    requires e <= |pairs|
    ensures forall o :: o in Entries(pairs[..e]) ==> o in catalog && Score(query, o, lib) > 0
  {
    forall o | o in Entries(pairs[..e])
      ensures o in catalog && Score(query, o, lib) > 0
    {
      var i :| 0 <= i < e && Entries(pairs[..e])[i] == o;
      assert pairs[i] in pairs;
    }
  }

  /** Sorted, scored pairs give entries in score-then-price order. */
  lemma EntriesOrder(pairs: seq<(int, Item)>, e: nat, query: string, lib: Library, i: nat)
    requires Sorted(pairs, PairKey)
    requires forall p :: p in pairs ==> p.0 == Score(query, p.1, lib)
    requires e <= |pairs| && i + 1 < e
    ensures var r := Entries(pairs[..e]);
      var s := Score(query, r[i], lib);
      var t := Score(query, r[i + 1], lib);
      s > t || (s == t && !ExtLt(CatalogPrice(r[i + 1]), CatalogPrice(r[i])))
  {
    assert pairs[i] in pairs && pairs[i + 1] in pairs;
    assert KeyLe(PairKey(pairs[i]), PairKey(pairs[i + 1]));
  }

  /** The entries come best score first, and among equal scores cheapest
      first. */
  lemma CatalogResultOrder(query: string, limit: int, catalog: seq<Item>, lib: Library, i: nat)
    requires CatalogShaped(catalog)
    requires i + 1 < |CatalogResult(query, limit, catalog, lib)|
    ensures var r := CatalogResult(query, limit, catalog, lib);
      var s := Score(query, r[i], lib);
      var t := Score(query, r[i + 1], lib);
      s > t || (s == t && !ExtLt(CatalogPrice(r[i + 1]), CatalogPrice(r[i])))
  {
    var scored := Scored(catalog, query, lib);
    var sorted := SortBy(scored, PairKey);
    ScoredFacts(catalog, query, lib);
    SortPermutes(scored, PairKey);
    SortSorted(scored, PairKey);
    forall p | p in sorted
      ensures p.0 == Score(query, p.1, lib)
    {
      assert p in multiset(scored);
    }
    EntriesOrder(sorted, SliceEnd(limit, |sorted|), query, lib, i);
  }

  /** A real query returns the first `limit` matches, or all of them when
      there are fewer; a negative limit drops that many from the end. */
  lemma CatalogResultCount(query: string, limit: int, catalog: seq<Item>, lib: Library)
    requires CatalogShaped(catalog)
    requires !IsBlank(query)
    ensures |CatalogResult(query, limit, catalog, lib)| == SliceEnd(limit, |Scored(catalog, query, lib)|)
  {
    StripEmptyIffBlank(query);
  }

  /** The sorted pairs hold each entry with its own score. */
  lemma SortedScores(catalog: seq<Item>, query: string, lib: Library)
    ensures forall p :: p in SortBy(Scored(catalog, query, lib), PairKey) ==> p.0 == Score(query, p.1, lib)
  {
    var scored := Scored(catalog, query, lib);
    ScoredFacts(catalog, query, lib);
    SortPermutes(scored, PairKey);
    forall p | p in SortBy(scored, PairKey)
      ensures p.0 == Score(query, p.1, lib)
    {
      assert p in multiset(scored);
    }
  }

  /** A matching catalog entry has its pair among the scored pairs. */
  lemma MatchIsScored(catalog: seq<Item>, query: string, lib: Library, x: Item) returns (j: nat)
    requires x in catalog && Score(query, x, lib) > 0
    ensures j < |Scored(catalog, query, lib)|
    ensures Scored(catalog, query, lib)[j] == (Score(query, x, lib) as int, x)
  {
    var scored := Scored(catalog, query, lib);
    ScoredComplete(catalog, query, lib);
    assert x in multiset(Entries(scored));
    j :| 0 <= j < |scored| && Entries(scored)[j] == x;
    ScoredFacts(catalog, query, lib);
    assert scored[j] in scored;
  }

  /** A matching catalog entry has its pair somewhere in the sorted pairs. */
  lemma MatchIsSorted(catalog: seq<Item>, query: string, lib: Library, x: Item) returns (at: nat)
    requires x in catalog && Score(query, x, lib) > 0
    ensures at < |SortBy(Scored(catalog, query, lib), PairKey)|
    ensures SortBy(Scored(catalog, query, lib), PairKey)[at] == (Score(query, x, lib) as int, x)
  {
    var scored := Scored(catalog, query, lib);
    var sorted := SortBy(scored, PairKey);
    var j := MatchIsScored(catalog, query, lib, x);
    SortPermutes(scored, PairKey);
    assert scored[j] in multiset(sorted);
    at :| 0 <= at < |sorted| && sorted[at] == scored[j];
  }

  /** The entries of a prefix are its pairs' entries. */
  lemma EntriesOfPrefix(pairs: seq<(int, Item)>, e: nat)
    requires e <= |pairs|
    ensures forall i :: 0 <= i < e ==> pairs[i].1 in Entries(pairs[..e])
  {
    forall i | 0 <= i < e
      ensures pairs[i].1 in Entries(pairs[..e])
    {
      assert Entries(pairs[..e])[i] == pairs[i].1;
    }
  }

  /** In sorted, scored pairs an earlier entry ranks no worse than a later
      one. */
  lemma RanksBefore(pairs: seq<(int, Item)>, query: string, lib: Library, i: nat, j: nat)
    requires Sorted(pairs, PairKey)
    requires forall p :: p in pairs ==> p.0 == Score(query, p.1, lib)
    requires i <= j < |pairs|
    ensures var s := Score(query, pairs[i].1, lib);
      var t := Score(query, pairs[j].1, lib);
      s > t || (s == t && !ExtLt(CatalogPrice(pairs[j].1), CatalogPrice(pairs[i].1)))
  {
    SortedAt(pairs, PairKey, i, j);
    assert pairs[i] in pairs && pairs[j] in pairs;
  }

  /** A matching entry that is not returned ranks no better than any entry
      that is: each returned entry has a higher score, or the same score and
      a price no higher. */
  lemma CatalogResultBest(query: string, limit: int, catalog: seq<Item>, lib: Library, x: Item)
    requires CatalogShaped(catalog)
    requires !IsBlank(query)
    requires x in catalog && Score(query, x, lib) > 0
    requires x !in CatalogResult(query, limit, catalog, lib)
    ensures forall o :: o in CatalogResult(query, limit, catalog, lib) ==>
      Score(query, o, lib) > Score(query, x, lib)
      || (Score(query, o, lib) == Score(query, x, lib) && !ExtLt(CatalogPrice(x), CatalogPrice(o)))
  {
    StripEmptyIffBlank(query);
    var sorted := SortBy(Scored(catalog, query, lib), PairKey);
    var e := SliceEnd(limit, |sorted|);
    var r := CatalogResult(query, limit, catalog, lib);
    assert r == Entries(sorted[..e]);
    var at := MatchIsSorted(catalog, query, lib, x);
    EntriesOfPrefix(sorted, e);
    SortedScores(catalog, query, lib);
    SortSorted(Scored(catalog, query, lib), PairKey);
    forall o | o in r
      ensures Score(query, o, lib) > Score(query, x, lib)
        || (Score(query, o, lib) == Score(query, x, lib) && !ExtLt(CatalogPrice(x), CatalogPrice(o)))
    {
      var i :| 0 <= i < e && r[i] == o;
      RanksBefore(sorted, query, lib, i, at);
    }
  }

  /** Returned entries with equal score and price come in catalog order:
      for each key they are the first such entries the catalog lists. */
  lemma CatalogTiesKeepOrder(query: string, limit: int, catalog: seq<Item>, lib: Library, k: Key)
    ensures WithKey(CatalogPairs(query, limit, catalog, lib), PairKey, k)
         <= WithKey(Scored(catalog, query, lib), PairKey, k)
  {
    if Strip(query) != [] {
      var sorted := SortBy(Scored(catalog, query, lib), PairKey);
      SortStable(Scored(catalog, query, lib), PairKey, k);
      WithKeyPrefix(sorted, PairKey, k, SliceEnd(limit, |sorted|));
    }
  }
}
