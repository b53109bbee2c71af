/** The response handling of openai_search.py: picking the list of offers
    out of a decoded JSON document, finding the JSON array in the model's
    text (the whole text first, then the bracketed span the regular
    expression `\[\s*\{.*\}\s*\]` finds), filling in the six keys of an
    offer, and the guards of `search_openai`. The SDK call and `json.loads`
    are parameters. */
module OpenAISearch {
  import opened Values
  import opened Text

  /** `PREFERRED_OBJECT_KEYS`. */
  const PreferredObjectKeys: seq<string> := ["products", "results", "items", "data"]

  // ---------------------------------------------------------------------
  // _coerce_array
  // ---------------------------------------------------------------------

  /** `[item for item in xs if isinstance(item, dict)]`. */
  function Dicts(xs: seq<Value>): (r: seq<Item>)
    ensures |r| <= |xs|
    ensures forall m :: m in r <==> VDict(m) in xs
  {
    if xs == [] then []
    else
      var rest := Dicts(xs[1..]);
      assert forall v :: v in xs <==> v == xs[0] || v in xs[1..];
      if xs[0].VDict? then [xs[0].fields] + rest else rest
  }

  /** A list made only of objects gives all of them, in order. */
  lemma {:induction false} DictsOfObjects(xs: seq<Value>)
    requires forall i :: 0 <= i < |xs| ==> xs[i].VDict?
    ensures |Dicts(xs)| == |xs|
    ensures forall i :: 0 <= i < |xs| ==> Dicts(xs)[i] == xs[i].fields
  {
    if xs != [] {
      DictsOfObjects(xs[1..]);
    }
  }

  /** `d.get(key)` holds a list. */
  predicate ListUnder(fields: map<string, Value>, key: string) {
    key in fields && fields[key].VList?
  }

  /** The items of the list under the first of `keys` that holds a list. */
  function FirstList(fields: map<string, Value>, keys: seq<string>): (r: Option<seq<Value>>)
    ensures r.None? <==> forall i :: 0 <= i < |keys| ==> !ListUnder(fields, keys[i])
    ensures r.Some? ==> exists j :: (0 <= j < |keys| && ListUnder(fields, keys[j])
      && fields[keys[j]].items == r.value
      && forall i :: 0 <= i < j ==> !ListUnder(fields, keys[i]))
  {
    if keys == [] then None
    else if ListUnder(fields, keys[0]) then Some(fields[keys[0]].items)
    else
      var r := FirstList(fields, keys[1..]);
      if r.Some? then
        var j :| 0 <= j < |keys| - 1 && ListUnder(fields, keys[1..][j])
          && fields[keys[1..][j]].items == r.value
          && forall i :: 0 <= i < j ==> !ListUnder(fields, keys[1..][i]);
        assert ListUnder(fields, keys[j + 1]) && fields[keys[j + 1]].items == r.value;
        assert forall i :: 1 <= i < j + 1 ==> keys[i] == keys[1..][i - 1];
        r
      else r
  }

  /** `_coerce_array(candidate)`: the objects of a list; for an object, the
      objects of the list under the first preferred key holding a list;
      nothing otherwise. */
  function CoerceArray(candidate: Value): seq<Item> {
    match candidate
    case VList(xs) => Dicts(xs)
    case VDict(fields) =>
      (match FirstList(fields, PreferredObjectKeys)
       case Some(xs) => Dicts(xs)
       case None => [])
    case _ => []
  }

  /** An object with a list under one of the preferred keys gives the
      objects of the first such list; keys holding something else are
      passed over. */
  lemma CoerceObject(fields: map<string, Value>, j: nat)
    requires j < |PreferredObjectKeys|
    requires ListUnder(fields, PreferredObjectKeys[j])
    requires forall i :: 0 <= i < j ==> !ListUnder(fields, PreferredObjectKeys[i])
    ensures CoerceArray(VDict(fields)) == Dicts(fields[PreferredObjectKeys[j]].items)
  {
    var r := FirstList(fields, PreferredObjectKeys);
    var k :| 0 <= k < |PreferredObjectKeys| && ListUnder(fields, PreferredObjectKeys[k])
      && fields[PreferredObjectKeys[k]].items == r.value
      && forall i :: 0 <= i < k ==> !ListUnder(fields, PreferredObjectKeys[i]);
    assert k == j;
  }

  /** Neither a list nor an object with a list under a preferred key gives
      anything. */
  lemma CoerceNothing(candidate: Value)
    requires !candidate.VList?
    requires candidate.VDict? ==> forall i :: 0 <= i < |PreferredObjectKeys| ==> !ListUnder(candidate.fields, PreferredObjectKeys[i])
    ensures CoerceArray(candidate) == []
  {
  }

  // ---------------------------------------------------------------------
  // JSON_ARRAY_PATTERN
  // ---------------------------------------------------------------------

  /** Every character of `t[a..b]` is whitespace. */
  predicate AllSpace(t: string, a: nat, b: nat)
    requires a <= b <= |t|
  {
    forall k :: a <= k < b ==> IsSpace(t[k])
  }

  /** `t[s..e]` is `[`, whitespace, `{` at `p`, anything, `}` at `q`,
      whitespace, `]`: a match of the pattern with these positions. */
  predicate PatternWith(t: string, s: nat, p: nat, q: nat, e: nat) {
    && s < p < q < e <= |t| && q + 1 <= e - 1
    && t[s] == '[' && AllSpace(t, s + 1, p) && t[p] == '{'
    && t[q] == '}' && AllSpace(t, q + 1, e - 1) && t[e - 1] == ']'
  }

  /** `t[s..e]` matches the pattern. */
  ghost predicate MatchesPattern(t: string, s: nat, e: nat) {
    exists p: nat, q: nat :: PatternWith(t, s, p, q, e)
  }

  /** The end of the whitespace run that starts at `k`. */
  function SkipSpaces(t: string, k: nat): (n: nat)
    requires k <= |t|
    ensures k <= n <= |t|
    ensures AllSpace(t, k, n)
    ensures n < |t| ==> !IsSpace(t[n])
    decreases |t| - k
  {
    if k < |t| && IsSpace(t[k]) then SkipSpaces(t, k + 1) else k
  }

  /** A `}` at `q` that whitespace and a `]` follow. */
  predicate CloseAt(t: string, q: nat) {
    q < |t| && t[q] == '}' && SkipSpaces(t, q + 1) < |t| && t[SkipSpaces(t, q + 1)] == ']'
  }

  /** The last position in `[lo, hi)` where the pattern can close: the
      greedy `.*` backs off from the end until `}\s*\]` matches. */
  function LastClose(t: string, lo: nat, hi: nat): (r: Option<nat>)
    requires hi <= |t|
    ensures r.None? ==> forall q :: lo <= q < hi ==> !CloseAt(t, q)
    ensures r.Some? ==> (lo <= r.value < hi && CloseAt(t, r.value)
      && forall q :: r.value < q < hi ==> !CloseAt(t, q))
    decreases hi
  {
    if hi <= lo then None
    else if CloseAt(t, hi - 1) then Some(hi - 1)
    else LastClose(t, lo, hi - 1)
  }

  /** The end of the match that starts at `s`, if one does. */
  function MatchAt(t: string, s: nat): (r: Option<nat>)
    requires s < |t|
    ensures r.Some? ==> s < r.value <= |t|
  {
    if t[s] != '[' then None
    else
      var p := SkipSpaces(t, s + 1);
      if p == |t| || t[p] != '{' then None
      else
        match LastClose(t, p + 1, |t|)
        case None => None
        case Some(q) => Some(SkipSpaces(t, q + 1) + 1)
  }

  /** `JSON_ARRAY_PATTERN.search(t)` from position `from`: the first start
      where a match exists, and that match's end. */
  function SearchSpan(t: string, from: nat): (r: Option<(nat, nat)>)
    requires from <= |t|
    ensures r.Some? ==> from <= r.value.0 < |t| && MatchAt(t, r.value.0) == Some(r.value.1)
    ensures r.Some? ==> forall s :: from <= s < r.value.0 ==> MatchAt(t, s).None?
    ensures r.None? ==> forall s :: from <= s < |t| ==> MatchAt(t, s).None?
    decreases |t| - from
  {
    if from == |t| then None
    else
      match MatchAt(t, from)
      case Some(e) => Some((from, e))
      case None => SearchSpan(t, from + 1)
  }

  /** The whitespace run after `k` ends where a non-space follows a run of
      spaces. */
  lemma SkipSpacesAt(t: string, k: nat, n: nat)
    requires k <= n < |t|
    requires AllSpace(t, k, n) && !IsSpace(t[n])
    ensures SkipSpaces(t, k) == n
    decreases n - k
  {
    if k < n {
      SkipSpacesAt(t, k + 1, n);
    }
  }

  /** A whitespace run ends at the latest at the next non-space. */
  lemma SkipSpacesStops(t: string, k: nat, n: nat)
    requires k <= n < |t| && !IsSpace(t[n])
    ensures SkipSpaces(t, k) <= n
    decreases n - k
  {
    if k < n && IsSpace(t[k]) {
      SkipSpacesStops(t, k + 1, n);
    }
  }

  /** No match starting where `MatchAt` finds one ends after it. */
  lemma MatchEndsBefore(t: string, s: nat, p: nat, q: nat, e: nat)
    requires s < |t| && MatchAt(t, s).Some?
    requires PatternWith(t, s, p, q, e)
    ensures e <= MatchAt(t, s).value
  {
    SkipSpacesAt(t, s + 1, p);
    SkipSpacesAt(t, q + 1, e - 1);
    assert CloseAt(t, q);
    var last := LastClose(t, p + 1, |t|).value;
    if q < last {
      SkipSpacesStops(t, q + 1, last);
    }
  }

  /** What `MatchAt` finds is a match of the pattern, and no longer match
      starts at the same place. */
  lemma MatchAtSound(t: string, s: nat)
    requires s < |t| && MatchAt(t, s).Some?
    ensures MatchesPattern(t, s, MatchAt(t, s).value)
    ensures forall e: nat :: MatchesPattern(t, s, e) ==> e <= MatchAt(t, s).value
  {
    var p := SkipSpaces(t, s + 1);
    var q := LastClose(t, p + 1, |t|).value;
    var e := SkipSpaces(t, q + 1) + 1;
    assert PatternWith(t, s, p, q, e);
    forall e': nat | MatchesPattern(t, s, e') ensures e' <= e {
      var p': nat, q': nat :| PatternWith(t, s, p', q', e');
      MatchEndsBefore(t, s, p', q', e');
    }
  }

  /** Where no match ends, none starts. */
  lemma MatchAtComplete(t: string, s: nat, e: nat)
    requires s < |t| && MatchesPattern(t, s, e)
    ensures MatchAt(t, s).Some?
  {
    var p: nat, q: nat :| PatternWith(t, s, p, q, e);
    assert s < p < q < e <= |t|;
    SkipSpacesAt(t, s + 1, p);
    SkipSpacesAt(t, q + 1, e - 1);
    assert CloseAt(t, q);
  }

  /** The span found is the leftmost match of the pattern, and the longest
      match at that start, as the greedy regular expression finds it; no
      span is found exactly when the pattern does not occur. */
  lemma SearchSpanIsLeftmostLongest(t: string)
    ensures SearchSpan(t, 0).Some? ==>
      var (s, e) := SearchSpan(t, 0).value;
      && MatchesPattern(t, s, e)
      && (forall s', e' :: 0 <= s' < s ==> !MatchesPattern(t, s', e'))
      && (forall e': nat :: MatchesPattern(t, s, e') ==> e' <= e)
    ensures SearchSpan(t, 0).None? ==> forall s, e :: 0 <= s < |t| ==> !MatchesPattern(t, s, e)
  {
    if SearchSpan(t, 0).Some? {
      var (s, e) := SearchSpan(t, 0).value;
      MatchAtSound(t, s);
      forall s', e' | 0 <= s' < s ensures !MatchesPattern(t, s', e') {
        if MatchesPattern(t, s', e') {
          MatchAtComplete(t, s', e');
        }
      }
    } else {
      forall s, e | 0 <= s < |t| ensures !MatchesPattern(t, s, e) {
        if MatchesPattern(t, s, e) {
          MatchAtComplete(t, s, e);
        }
      }
    }
  }

  // ---------------------------------------------------------------------
  // _extract_json_array
  // ---------------------------------------------------------------------

  /** `_extract_json_array(raw)`; `loads` is `json.loads`, `None` where it
      raises `JSONDecodeError` (JSON `null` decodes to `VNone`). */
  function ExtractJsonArray(raw: string, loads: string -> Option<Value>): seq<Item> {
    if raw == [] then []
    else
      var t := Strip(raw);
      var whole := loads(t);
      if whole.Some? && whole.value != VNone && CoerceArray(whole.value) != [] then
        CoerceArray(whole.value)
      else
        match SearchSpan(t, 0)
        case None => []
        case Some((s, e)) =>
          match loads(t[s..e])
          case None => []
          case Some(v) => CoerceArray(v)
  }

  /** Empty text gives nothing. */
  lemma ExtractEmpty(loads: string -> Option<Value>)
    ensures ExtractJsonArray([], loads) == []
  {
  }

  /** A text that parses whole into something with offers gives those. */
  lemma ExtractWhole(raw: string, loads: string -> Option<Value>, v: Value)
    requires raw != []
    requires loads(Strip(raw)) == Some(v) && v != VNone && CoerceArray(v) != []
    ensures ExtractJsonArray(raw, loads) == CoerceArray(v)
  {
  }

  /** Otherwise the leftmost, longest bracketed span is parsed... */
  lemma ExtractFromSpan(raw: string, loads: string -> Option<Value>, s: nat, e: nat, v: Value)
    requires raw != []
    requires var whole := loads(Strip(raw));
      whole.None? || whole.value == VNone || CoerceArray(whole.value) == []
    requires SearchSpan(Strip(raw), 0) == Some((s, e))
    requires loads(Strip(raw)[s..e]) == Some(v)
    ensures ExtractJsonArray(raw, loads) == CoerceArray(v)
  {
  }

  /** ...and without such a span, or when it does not parse, nothing is
      found. */
  lemma ExtractFails(raw: string, loads: string -> Option<Value>)
    requires raw != []
    requires var whole := loads(Strip(raw));
      whole.None? || whole.value == VNone || CoerceArray(whole.value) == []
    requires var span := SearchSpan(Strip(raw), 0);
      span.None? || loads(Strip(raw)[span.value.0..span.value.1]).None?
    ensures ExtractJsonArray(raw, loads) == []
  {
  }

  // ---------------------------------------------------------------------
  // _normalize_result and search_openai
  // ---------------------------------------------------------------------

  /** `float(v)`: numbers convert, a string goes to the library `float`
      (`Err` where it raises `ValueError`), anything else raises
      `TypeError`. */
  function FloatOf(v: Value, lib: Library): (r: Result<real, string>)
    ensures AsNumber(v).Some? ==> r == Ok(AsNumber(v).value)
    ensures v.VStr? ==> (r.Ok? <==> lib.float(v.s).Some?)
    ensures (v.VNone? || v.VList? || v.VDict?) ==> r.Err?
  {
    match v
    case VStr(s) =>
      (match lib.float(s)
       case Some(x) => Ok(x)
       case None => Err("ValueError"))
    case VNone => Err("TypeError")
    case VList(_) => Err("TypeError")
    case VDict(_) => Err("TypeError")
    case _ => Ok(AsNumber(v).value)
  }

  /** `item.get("price", 0) or 0`. */
  function RawPrice(item: Item): Value {
    var v := GetOr(item, "price", VInt(0));
    if Truthy(v) then v else VInt(0)
  }

  /** `_normalize_result(item)`: the six keys with their defaults, the price
      as a float and the stock flag as a bool; `Err` where `float` raises. */
  function NormalizeResult(item: Item, lib: Library): Result<Item, string> {
    match FloatOf(RawPrice(item), lib)
    case Err(e) => Err(e)
    case Ok(price) =>
      Ok(map[
        "title" := GetOr(item, "title", VStr("Unknown Product")),
        "price" := VFloat(price),
        "in_stock" := VBool(Truthy(GetOr(item, "in_stock", VBool(false)))),
        "source" := GetOr(item, "source", VStr("OpenAI")),
        "link" := GetOr(item, "link", VStr("")),
        "image" := GetOr(item, "image", VStr(""))])
  }

  /** A normalised offer has exactly the six keys, the price is a float and
      the flag a bool; a key the model left out takes its default, and the
      others keep the model's value. */
  lemma NormalizeShape(item: Item, lib: Library)
    requires NormalizeResult(item, lib).Ok?
    ensures var n := NormalizeResult(item, lib).value;
      && n.Keys == {"title", "price", "in_stock", "source", "link", "image"}
      && n["price"].VFloat? && n["in_stock"].VBool?
      && n["title"] == GetOr(item, "title", VStr("Unknown Product"))
      && n["source"] == GetOr(item, "source", VStr("OpenAI"))
      && n["link"] == GetOr(item, "link", VStr(""))
      && n["image"] == GetOr(item, "image", VStr(""))
      && n["in_stock"].b == Truthy(GetOr(item, "in_stock", VBool(false)))
  {
  }

  /** An absent or falsy price (None, 0, 0.0, False, "") becomes 0.0; a
      number keeps its value. */
  lemma NormalizePrice(item: Item, lib: Library)
    ensures !Truthy(GetOr(item, "price", VInt(0))) ==>
      NormalizeResult(item, lib).Ok? && NormalizeResult(item, lib).value["price"] == VFloat(0.0)
    ensures "price" in item && Truthy(item["price"]) && AsNumber(item["price"]).Some? ==>
      NormalizeResult(item, lib).Ok? && NormalizeResult(item, lib).value["price"] == VFloat(AsNumber(item["price"]).value)
  {
  }

  /** A price text `float` rejects, or a truthy list or object, makes the
      normalisation raise. */
  lemma NormalizeRaises(item: Item, lib: Library)
    requires "price" in item && Truthy(item["price"])
    requires (item["price"].VStr? && lib.float(item["price"].s).None?) || item["price"].VList? || item["price"].VDict?
    ensures NormalizeResult(item, lib).Err?
  {
  }

  /** Any non-empty stock text, "false" included, counts as in stock. */
  lemma StockTextIsTruthy(item: Item, lib: Library)
    requires NormalizeResult(item, lib).Ok?
    requires "in_stock" in item && item["in_stock"].VStr? && item["in_stock"].s != []
    ensures NormalizeResult(item, lib).value["in_stock"] == VBool(true)
  {
  }

  /** `[_normalize_result(item) for item in items]`: the first item whose
      price raises ends the comprehension with its error. */
  function NormalizeAll(items: seq<Item>, lib: Library): (r: Result<seq<Item>, string>)
    ensures r.Ok? <==> forall i :: 0 <= i < |items| ==> NormalizeResult(items[i], lib).Ok?
    ensures r.Ok? ==> (|r.value| == |items|
      && forall i :: 0 <= i < |items| ==> r.value[i] == NormalizeResult(items[i], lib).value)
  {
    if items == [] then Ok([])
    else
      var first := NormalizeResult(items[0], lib);
      var rest := NormalizeAll(items[1..], lib);
      assert forall i :: 1 <= i < |items| ==> items[i] == items[1..][i - 1];
      if first.Err? then Err(first.error)
      else if rest.Err? then Err(rest.error)
      else Ok([first.value] + rest.value)
  }

  /** `search_openai(query)`. `invoke` is `_invoke_openai` on the prompt
      built from the stripped query: its text, or `None` where it raises.
      `Err` is the exception of `float` that the function lets through. */
  function SearchOpenAI(query: string, invoke: string -> Option<string>, loads: string -> Option<Value>, lib: Library)
    : Result<seq<Item>, string>
  {
    if Strip(query) == [] then Ok([])
    else
      match invoke(Strip(query))
      case None => Ok([])
      case Some(raw) =>
        if raw == [] then Ok([])
        else NormalizeAll(ExtractJsonArray(raw, loads), lib)
  }

  /** A blank query asks nothing and finds nothing; a failed call or an
      empty answer finds nothing. */
  lemma SearchOpenAIGuards(query: string, invoke: string -> Option<string>, loads: string -> Option<Value>, lib: Library)
    ensures IsBlank(query) ==> SearchOpenAI(query, invoke, loads, lib) == Ok([])
    ensures invoke(Strip(query)).None? ==> SearchOpenAI(query, invoke, loads, lib) == Ok([])
    ensures invoke(Strip(query)) == Some([]) ==> SearchOpenAI(query, invoke, loads, lib) == Ok([])
  {
    StripEmptyIffBlank(query);
  }

  /** Each extracted offer gives one normalised offer, in order. */
  lemma SearchOpenAIPerItem(query: string, invoke: string -> Option<string>, loads: string -> Option<Value>, lib: Library)
    requires !IsBlank(query) && invoke(Strip(query)).Some?
    requires SearchOpenAI(query, invoke, loads, lib).Ok?
    ensures var extracted := ExtractJsonArray(invoke(Strip(query)).value, loads);
      var r := SearchOpenAI(query, invoke, loads, lib).value;
      && |r| == |extracted|
      && forall i :: 0 <= i < |r| ==> r[i] == NormalizeResult(extracted[i], lib).value
  {
    StripEmptyIffBlank(query);
  }

  /** An answer holding one complete offer, as the model is asked to
      produce, comes back as that offer. */
  lemma ExampleSingleOffer(query: string, invoke: string -> Option<string>, loads: string -> Option<Value>,
                           lib: Library, raw: string, m: Item)
    requires !IsBlank(query) && invoke(Strip(query)) == Some(raw) && raw != []
    requires loads(Strip(raw)) == Some(VList([VDict(m)]))
    requires m.Keys == {"title", "price", "in_stock", "source", "link", "image"}
    requires m["price"] == VFloat(1.0) && m["in_stock"] == VBool(true)
    ensures SearchOpenAI(query, invoke, loads, lib) == Ok([m])
  {
    StripEmptyIffBlank(query);
    assert CoerceArray(VList([VDict(m)])) == [m];
    NormalizeComplete(m, lib);
  }

  /** An offer that already has the six keys, a nonzero float price and a
      bool flag is left as it is. */
  lemma NormalizeComplete(m: Item, lib: Library)
    requires m.Keys == {"title", "price", "in_stock", "source", "link", "image"}
    requires m["price"].VFloat? && m["price"].r != 0.0 && m["in_stock"].VBool?
    ensures NormalizeResult(m, lib) == Ok(m)
  {
    var n := NormalizeResult(m, lib).value;
    assert RawPrice(m) == m["price"];
    assert n["price"] == m["price"] && n["in_stock"] == m["in_stock"];
    assert n.Keys == m.Keys;
    assert n["title"] == m["title"] && n["source"] == m["source"];
    assert n["link"] == m["link"] && n["image"] == m["image"];
    assert forall k :: k in n ==> n[k] == m[k];
    assert n == m;
  }
}
