/** `parse_price` (scrapers/utils.py): the text of a price, such as
    "Starting at $1,234.50" or "$10–$20", read as a number. */
module PriceParser {
  import opened Text

  predicate AllDigits(s: string) {
    forall i :: 0 <= i < |s| ==> IsAsciiDigit(s[i])
  }

  function Pow10(n: nat): (p: nat)
    ensures p >= 1
  {
    if n == 0 then 1 else 10 * Pow10(n - 1)
  }

  /** The value of a string of decimal digits, most significant first. */
  function DigitsValue(s: string): nat
    requires AllDigits(s)
  {
    if s == [] then 0 else 10 * DigitsValue(s[..|s| - 1]) + (s[|s| - 1] as int - '0' as int)
  }

  /** One match of the number pattern `[0-9]+(?:\.[0-9]+)?`: the digits
      before the point and the (possibly empty) digits after it. */
  datatype Decimal = Decimal(whole: string, frac: string) {
    predicate Valid() {
      whole != [] && AllDigits(whole) && AllDigits(frac)
    }

    /** The matched text. */
    function Text(): string {
      if frac == [] then whole else whole + "." + frac
    }

    /** `float()` of the matched text, exactly. */
    function Value(): (v: real)
      requires Valid()
      ensures v >= 0.0
    {
      DigitsValue(whole) as real + DigitsValue(frac) as real / Pow10(|frac|) as real
    }
  }

  // ---------------------------------------------------------------------
  // Step 1: re.sub(r"\b(from|starting at)\b", "", text, flags=re.I)
  // ---------------------------------------------------------------------

  predicate WordAt(s: string, p: int) {
    0 <= p < |s| && IsWordChar(s[p])
  }

  /** The regular-expression assertion `\b` at position `p`. */
  predicate Boundary(s: string, p: int) {
    WordAt(s, p - 1) != WordAt(s, p)
  }

  /** `w` (lower case) matches `s` at `i`, ignoring ASCII case. */
  predicate MatchesAt(s: string, i: nat, w: string) {
    i + |w| <= |s| && forall k {:trigger w[k]} :: 0 <= k < |w| ==> LowerChar(s[i + k]) == w[k]
  }

  /** The length of the lead-in phrase matched at `i`, or 0 when none is:
      the alternatives are tried in the order of the pattern. */
  function LeadInAt(s: string, i: nat): (n: nat)
    requires i <= |s|
    ensures i + n <= |s|
    ensures n == 0 || n == 4 || n == 11
  {
    if MatchesAt(s, i, "from") && Boundary(s, i) && Boundary(s, i + 4) then 4
    else if MatchesAt(s, i, "starting at") && Boundary(s, i) && Boundary(s, i + 11) then 11
    else 0
  }

  /** A left-to-right scan from `i` that, wherever `at` reports a match of
      positive length, deletes it and resumes after it, and otherwise keeps
      the character. */
  function ScanFrom(s: string, at: nat -> nat, i: nat): string
    requires i <= |s|
    decreases |s| - i
  {
    if i == |s| then []
    else
      var n := at(i);
      if 0 < n <= |s| - i then ScanFrom(s, at, i + n) else [s[i]] + ScanFrom(s, at, i + 1)
  }

  /** The text a scan from `i` keeps. Lemmas state their results through
      this entry point, so that a caller unfolds the scan one step at most
      (the matcher behind `at` is costly to unfold). */
  function Scan(s: string, at: nat -> nat, i: nat): string
    requires i <= |s|
  {
    ScanFrom(s, at, i)
  }

  /** The lead-in matcher over `s`, as a function of the position. */
  function LeadInsOf(s: string): nat -> nat {
    (i: nat) => if i <= |s| then LeadInAt(s, i) else 0
  }

  /** The substitution, scanning left to right from `i`: each match is
      deleted and scanning resumes after it; the `\b` tests look at the
      original text. */
  function RemoveLeadIns(s: string, i: nat): string
    requires i <= |s|
  {
    Scan(s, LeadInsOf(s), i)
  }

  // ---------------------------------------------------------------------
  // Step 2: .replace("–", "-").replace(",", "")
  // ---------------------------------------------------------------------

  const EnDash: char := '\U{2013}'

  function UnifyDashes(s: string): string {
    if s == [] then []
    else if s[0] == EnDash then ['-'] + UnifyDashes(s[1..])
    else if s[0] == ',' then UnifyDashes(s[1..])
    else [s[0]] + UnifyDashes(s[1..])
  }

  /** The text `parse_price` scans for numbers. */
  function Normalize(text: string): string {
    UnifyDashes(RemoveLeadIns(text, 0))
  }

  // ---------------------------------------------------------------------
  // Step 3: re.findall(r"([0-9]+(?:\.[0-9]+)?)", normalized)
  // ---------------------------------------------------------------------

  /** Length of the longest prefix of ASCII digits. */
  function DigitRun(s: string): (n: nat)
    ensures n <= |s|
    ensures AllDigits(s[..n])
    ensures n < |s| ==> !IsAsciiDigit(s[n])
  {
    if s == [] || !IsAsciiDigit(s[0]) then 0 else 1 + DigitRun(s[1..])
  }

  /** A decimal point followed by a digit starts `s`. */
  predicate FractionFollows(s: string) {
    |s| >= 2 && s[0] == '.' && IsAsciiDigit(s[1])
  }

  /** The numbers found, left to right and without overlap: each is a
      maximal run of digits, extended by "." and a maximal run of digits
      when a digit follows the point. */
  function Numbers(s: string): (r: seq<Decimal>)
    ensures forall k :: 0 <= k < |r| ==> r[k].Valid()
    decreases |s|
  {
    if s == [] then []
    else if !IsAsciiDigit(s[0]) then Numbers(s[1..])
    else
      var n := DigitRun(s);
      var rest := s[n..];
      if FractionFollows(rest) then
        var m := DigitRun(rest[1..]);
        [Decimal(s[..n], rest[1..][..m])] + Numbers(rest[1..][m..])
      else
        [Decimal(s[..n], "")] + Numbers(rest)
  }

  // ---------------------------------------------------------------------
  // Step 4: the price
  // ---------------------------------------------------------------------

  /** `parse_price(text)`: the midpoint of the first two numbers when the
      normalised text has a hyphen and at least two numbers, otherwise the
      first number, and 0.0 when there is none. */
  function ParsePrice(text: string): (r: real)
    ensures r >= 0.0
  {
    var normalized := Normalize(text);
    var numbers := Numbers(normalized);
    if numbers == [] then 0.0
    else if '-' in normalized && |numbers| >= 2 then
      (numbers[0].Value() + numbers[1].Value()) / 2.0
    else numbers[0].Value()
  }

  // ---------------------------------------------------------------------
  // How the scan reads a text
  // ---------------------------------------------------------------------

  lemma {:induction false} DigitRunOfDigits(d: string, s: string)
    requires AllDigits(d)
    requires s == [] || !IsAsciiDigit(s[0])
    ensures DigitRun(d + s) == |d|
  {
    if d != [] {
      assert (d + s)[1..] == d[1..] + s;
      DigitRunOfDigits(d[1..], s);
    } else {
      assert d + s == s;
    }
  }

  /** A character that is not a digit starts no number. */
  lemma {:induction false} SkipsNonDigit(c: char, s: string)
    requires !IsAsciiDigit(c)
    ensures Numbers([c] + s) == Numbers(s)
  {
    assert ([c] + s)[1..] == s;
  }

  /** A maximal run of digits not followed by "." and a digit is one number. */
  lemma {:induction false} ReadsWholeNumber(d: string, s: string)
    requires d != [] && AllDigits(d)
    requires s == [] || !IsAsciiDigit(s[0])
    requires !FractionFollows(s)
    ensures Numbers(d + s) == [Decimal(d, "")] + Numbers(s)
  {
    DigitRunOfDigits(d, s);
    assert (d + s)[..|d|] == d;
    assert (d + s)[|d|..] == s;
  }

  /** Digits, a point and digits form one number with a fraction. */
  lemma {:induction false} ReadsFractionParts(d: string, f: string, s: string)
    requires d != [] && AllDigits(d)
    requires f != [] && AllDigits(f)
    requires s == [] || !IsAsciiDigit(s[0])
    ensures Numbers(d + (['.'] + (f + s))) == [Decimal(d, f)] + Numbers(s)
  {
    var rest := ['.'] + (f + s);
    var t := d + rest;
    DigitRunOfDigits(d, rest);
    assert t[0] == d[0];
    assert t[..|d|] == d;
    assert t[|d|..] == rest;
    assert FractionFollows(rest);
    assert rest[1..] == f + s;
    DigitRunOfDigits(f, s);
    assert (f + s)[..|f|] == f;
    assert (f + s)[|f|..] == s;
  }

  /** Digits, a point and digits form one number with a fraction. */
  lemma {:induction false} ReadsFraction(d: string, f: string, s: string)
    requires d != [] && AllDigits(d)
    requires f != [] && AllDigits(f)
    requires s == [] || !IsAsciiDigit(s[0])
    ensures Numbers(d + "." + f + s) == [Decimal(d, f)] + Numbers(s)
  {
    assert d + "." + f + s == d + (['.'] + (f + s));
    ReadsFractionParts(d, f, s);
  }

  predicate NoDigit(s: string) {
    forall i :: 0 <= i < |s| ==> !IsAsciiDigit(s[i])
  }

  /** A scan finds a number exactly when the text has a digit. */
  lemma {:induction false} NumbersEmptyIffNoDigit(s: string)
    ensures Numbers(s) == [] <==> NoDigit(s)
    decreases |s|
  {
    if s != [] && !IsAsciiDigit(s[0]) {
      NumbersEmptyIffNoDigit(s[1..]);
      if NoDigit(s[1..]) {
        forall i | 0 <= i < |s| ensures !IsAsciiDigit(s[i]) {
          if i > 0 { assert s[i] == s[1..][i - 1]; }
        }
      }
    }
  }

  // ---------------------------------------------------------------------
  // What normalisation keeps
  // ---------------------------------------------------------------------

  /** Characters that can never be part of a lead-in phrase. */
  predicate NeverLeadIn(c: char) {
    !IsAsciiLetter(c) && c != ' '
  }

  lemma {:induction false} LowerOfPhraseChar(c: char, w: char)
    requires LowerChar(c) == w
    requires 'a' <= w <= 'z' || w == ' '
    ensures !NeverLeadIn(c)
  {
  }

  /** The two phrases are written with lower-case letters and spaces. */
  lemma {:induction false} PhraseAlphabet(w: string, k: nat)
    requires w == "from" || w == "starting at"
    requires k < |w|
    ensures 'a' <= w[k] <= 'z' || w[k] == ' '
  {
    if w == "from" {
      assert k == 0 || k == 1 || k == 2 || k == 3;
    } else {
      assert k <= 10;
      assert k == 0 || k == 1 || k == 2 || k == 3 || k == 4 || k == 5
          || k == 6 || k == 7 || k == 8 || k == 9 || k == 10;
    }
  }

  /** A matched phrase starts with a letter. */
  lemma {:induction false} PhraseStartsWithLetter(s: string, i: nat)
    requires i <= |s|
    ensures LeadInAt(s, i) > 0 ==> i < |s| && IsAsciiLetter(s[i])
  {
    if LeadInAt(s, i) > 0 {
      var w := if LeadInAt(s, i) == 4 then "from" else "starting at";
      assert LowerChar(s[i + 0]) == w[0];
    }
  }

  /** The characters of a matched lead-in phrase are letters and spaces. */
  lemma {:induction false} LeadInChars(s: string, i: nat, j: nat)
    requires i <= |s|
    requires i <= j < i + LeadInAt(s, i)
    ensures !NeverLeadIn(s[j])
  {
    var n := LeadInAt(s, i);
    var w := if n == 4 then "from" else "starting at";
    assert MatchesAt(s, i, w);
    var k := j - i;
    assert LowerChar(s[i + k]) == w[k];
    PhraseAlphabet(w, k);
    LowerOfPhraseChar(s[j], w[k]);
  }

  /** Deleting lead-in phrases keeps every character that cannot belong to
      one: such a character occurs after the deletion exactly when it
      occurred before. */
  lemma {:induction false} RemovalKeeps(s: string, i: nat, c: char)
    requires i <= |s|
    requires NeverLeadIn(c)
    ensures c in RemoveLeadIns(s, i) <==> c in s[i..]
    decreases |s| - i
  {
    if i < |s| {
      var n := LeadInAt(s, i);
      if n > 0 {
        RemovalKeeps(s, i + n, c);
        forall j | i <= j < i + n ensures s[j] != c {
          LeadInChars(s, i, j);
        }
        if c in s[i..] {
          var j :| 0 <= j < |s[i..]| && s[i..][j] == c;
          assert s[i + j] == c;
          assert j >= n;
          assert s[i + n..][j - n] == c;
        }
        if c in s[i + n..] {
          var j :| 0 <= j < |s[i + n..]| && s[i + n..][j] == c;
          assert s[i..][j + n] == c;
        }
      } else {
        RemovalKeeps(s, i + 1, c);
        assert s[i..] == [s[i]] + s[i + 1..];
      }
    }
  }

  lemma {:induction false} UnifyKeeps(s: string, c: char)
    requires c != '-' && c != ',' && c != EnDash
    ensures c in UnifyDashes(s) <==> c in s
  {
    if s != [] {
      UnifyKeeps(s[1..], c);
      assert s == [s[0]] + s[1..];
    }
  }

  lemma {:induction false} UnifyHyphen(s: string)
    ensures '-' in UnifyDashes(s) <==> ('-' in s || EnDash in s)
  {
    if s != [] {
      UnifyHyphen(s[1..]);
      assert s == [s[0]] + s[1..];
    }
  }

  /** The text has a digit exactly when its normalised form has one. */
  lemma {:induction false} NormalizeKeepsDigits(text: string)
    ensures NoDigit(Normalize(text)) <==> NoDigit(text)
  {
    var r := RemoveLeadIns(text, 0);
    assert text[0..] == text;
    if !NoDigit(text) {
      var i :| 0 <= i < |text| && IsAsciiDigit(text[i]);
      RemovalKeeps(text, 0, text[i]);
      UnifyKeeps(r, text[i]);
    }
    if !NoDigit(Normalize(text)) {
      var i :| 0 <= i < |Normalize(text)| && IsAsciiDigit(Normalize(text)[i]);
      var c := Normalize(text)[i];
      UnifyKeeps(r, c);
      RemovalKeeps(text, 0, c);
    }
  }

  /** The range test sees a hyphen exactly when the text has a hyphen or an
      en dash (U+2013); no other dash counts. */
  lemma {:induction false} NormalizeHyphen(text: string)
    ensures '-' in Normalize(text) <==> ('-' in text || EnDash in text)
  {
    assert text[0..] == text;
    UnifyHyphen(RemoveLeadIns(text, 0));
    RemovalKeeps(text, 0, '-');
    RemovalKeeps(text, 0, EnDash);
  }

  // ---------------------------------------------------------------------
  // Properties of parse_price
  // ---------------------------------------------------------------------

  /** Text without a digit parses to 0.0; text with one yields at least one
      number. */
  lemma {:induction false} NoDigitNoPrice(text: string)
    ensures NoDigit(text) <==> Numbers(Normalize(text)) == []
    ensures NoDigit(text) ==> ParsePrice(text) == 0.0
  {
    NormalizeKeepsDigits(text);
    NumbersEmptyIffNoDigit(Normalize(text));
  }

  /** The range rule, stated on the text itself: with a hyphen or an en dash
      and two numbers the price is the mean of the first two numbers, and
      it lies between them; otherwise it is the first number and every
      later number is ignored. */
  lemma {:induction false} RangeRule(text: string)
    ensures var nums := Numbers(Normalize(text));
      |nums| >= 2 && ('-' in text || EnDash in text) ==>
        && ParsePrice(text) == (nums[0].Value() + nums[1].Value()) / 2.0
        && (ParsePrice(text) >= nums[0].Value() || ParsePrice(text) >= nums[1].Value())
        && (ParsePrice(text) <= nums[0].Value() || ParsePrice(text) <= nums[1].Value())
    ensures var nums := Numbers(Normalize(text));
      |nums| >= 1 && !('-' in text || EnDash in text) ==> ParsePrice(text) == nums[0].Value()
  {
    NormalizeHyphen(text);
  }

  lemma {:induction false} WordAtShift(p: string, t: string, m: int)
    requires m >= 0
    ensures WordAt(p + t, |p| + m) == WordAt(t, m)
  {
    if m < |t| { assert (p + t)[|p| + m] == t[m]; }
  }

  lemma {:induction false} MatchesAtShift(p: string, t: string, k: nat, w: string)
    ensures MatchesAt(p + t, |p| + k, w) == MatchesAt(t, k, w)
  {
    if k + |w| <= |t| {
      assert forall j :: 0 <= j < |t| ==> (p + t)[|p| + j] == t[j];
    }
  }

  /** Position `d + m` of `s` holds the same character as position `m` of
      `t`, and the same phrase is found at both. */
  predicate Aligned(s: string, t: string, d: nat, m: nat) {
    m < |t| && d + m < |s| && s[d + m] == t[m] && LeadInAt(s, d + m) == LeadInAt(t, m)
  }

  /** `s` and `t` are aligned from position `k0` of `t` on. */
  predicate AlignedFrom(s: string, t: string, d: nat, k0: nat) {
    forall m {:trigger Aligned(s, t, d, m)} :: k0 <= m < |t| ==> Aligned(s, t, d, m)
  }

  /** Two scans are aligned from position `k0` of `t` on: position
      `d + m` of `s` holds the character at `m` of `t`, and both matchers
      report the same length there. */
  predicate ScansAligned(s: string, t: string, f: nat -> nat, g: nat -> nat, d: nat, k0: nat) {
    forall m {:trigger g(m)} :: k0 <= m < |t| ==> d + m < |s| && s[d + m] == t[m] && f(d + m) == g(m)
  }

  /** Aligned scans agree: scanning `s` from `d + k` and `t` from `k`, for
      any `k >= k0`, gives the same result. */
  lemma {:induction false} ScanAligned(s: string, t: string, f: nat -> nat, g: nat -> nat, d: nat, k0: nat, k: nat)
    requires |s| == d + |t| && k0 <= k <= |t|
    requires ScansAligned(s, t, f, g, d, k0)
    ensures Scan(s, f, d + k) == Scan(t, g, k)
    decreases |t| - k
  {
    if k < |t| {
      assert s[d + k] == t[k] && f(d + k) == g(k);
      var n := g(k);
      if 0 < n <= |t| - k {
        ScanAligned(s, t, f, g, d, k0, k + n);
      } else {
        ScanAligned(s, t, f, g, d, k0, k + 1);
      }
    }
  }

  /** One step of the substitution. */
  lemma {:induction false} RemovalStep(s: string, i: nat)
    requires i < |s|
    ensures LeadInAt(s, i) > 0 ==> RemoveLeadIns(s, i) == RemoveLeadIns(s, i + LeadInAt(s, i))
    ensures LeadInAt(s, i) == 0 ==> RemoveLeadIns(s, i) == [s[i]] + RemoveLeadIns(s, i + 1)
  {
  }

  /** The same phrase is found at corresponding positions of `p + t` and
      `t`, except possibly at the join between two word characters. */
  lemma {:induction false} LeadInAtShift(p: string, t: string, k: nat)
    requires k < |t|
    requires k > 0 || p == [] || !IsWordChar(p[|p| - 1]) || !IsWordChar(t[0])
    ensures Aligned(p + t, t, |p|, k)
  {
    var s := p + t;
    MatchesAtShift(p, t, k, "from");
    MatchesAtShift(p, t, k, "starting at");
    WordAtShift(p, t, k + 3);
    WordAtShift(p, t, k + 4);
    WordAtShift(p, t, k + 10);
    WordAtShift(p, t, k + 11);
    WordAtShift(p, t, k);
    assert s[|p| + k] == t[k];
    if k > 0 || p == [] || !IsWordChar(p[|p| - 1]) {
      if k > 0 { WordAtShift(p, t, k - 1); }
      assert Boundary(s, |p| + k) == Boundary(t, k);
    } else {
      PhraseStartsWithLetter(t, 0);
      PhraseStartsWithLetter(s, |p|);
    }
  }

  /** The join of `p` and `t`, seen from position `k` of `t`, is not
      between two word characters at the very first position. */
  predicate CleanJoin(p: string, t: string, k: nat) {
    k > 0 || p == [] || !IsWordChar(p[|p| - 1]) || t == [] || !IsWordChar(t[0])
  }

  /** Scanning resumes after a deleted phrase with the same `\b` tests as on
      the remaining text alone, provided the join is not between two word
      characters at the very first position. */
  lemma {:induction false} RemovalOnSuffix(p: string, t: string, k: nat)
    requires k <= |t|
    requires CleanJoin(p, t, k)
    ensures RemoveLeadIns(p + t, |p| + k) == RemoveLeadIns(t, k)
  {
    var s := p + t;
    AlignedSuffix(p, t, k);
    LeadInsAligned(s, t, |p|, k);
    ScanAligned(s, t, LeadInsOf(s), LeadInsOf(t), |p|, k, k);
  }

  lemma {:induction false} LeadInsAligned(s: string, t: string, d: nat, k0: nat)
    requires AlignedFrom(s, t, d, k0)
    ensures ScansAligned(s, t, LeadInsOf(s), LeadInsOf(t), d, k0)
  {
    forall m | k0 <= m < |t|
      ensures d + m < |s| && s[d + m] == t[m] && LeadInsOf(s)(d + m) == LeadInsOf(t)(m)
    {
      assert Aligned(s, t, d, m);
    }
  }

  lemma {:induction false} AlignedSuffix(p: string, t: string, k: nat)
    requires k <= |t|
    requires CleanJoin(p, t, k)
    ensures AlignedFrom(p + t, t, |p|, k)
  {
    forall m | k <= m < |t| ensures Aligned(p + t, t, |p|, m) {
      LeadInAtShift(p, t, m);
    }
  }

  /** A leading "From" or "Starting at", in any letter case, is matched
      at the start of the text when a non-word character (or nothing)
      follows it. */
  lemma {:induction false} LeadInAtStart(w: string, t: string)
    requires Lower(w) == "from" || Lower(w) == "starting at"
    requires t == [] || !IsWordChar(t[0])
    ensures LeadInAt(w + t, 0) == |w|
  {
    var s := w + t;
    assert forall k :: 0 <= k < |w| ==> s[k] == w[k];
    forall k | 0 <= k < |w| ensures LowerChar(s[k]) == Lower(w)[k] {
      LowerAt(w, k);
    }
    assert MatchesAt(s, 0, Lower(w));
    assert IsWordChar(s[0]);
    assert IsWordChar(s[|w| - 1]);
    assert Boundary(s, |w|);
    if Lower(w) == "starting at" {
      assert LowerChar(s[0]) == 's' && "from"[0] == 'f';
      assert !MatchesAt(s, 0, "from");
    }
  }

  /** The substitution deletes such a leading phrase and nothing else. */
  lemma {:induction false} LeadInDeleted(w: string, t: string)
    requires Lower(w) == "from" || Lower(w) == "starting at"
    requires t == [] || !IsWordChar(t[0])
    ensures RemoveLeadIns(w + t, 0) == RemoveLeadIns(t, 0)
  {
    LeadInAtStart(w, t);
    RemovalStep(w + t, 0);
    RemovalOnSuffix(w, t, 0);
  }

  /** A leading "From" or "Starting at", in any letter case, never changes
      the price, whatever follows it (after a character that is not a word
      character, as `\b` demands). */
  lemma {:induction false} LeadInIgnored(w: string, t: string)
    requires Lower(w) == "from" || Lower(w) == "starting at"
    requires t == [] || !IsWordChar(t[0])
    ensures ParsePrice(w + t) == ParsePrice(t)
  {
    LeadInDeleted(w, t);
    assert Normalize(w + t) == Normalize(t);
  }

  /** Deletes every comma. */
  function DeleteCommas(s: string): string {
    if s == [] then []
    else if s[0] == ',' then DeleteCommas(s[1..])
    else [s[0]] + DeleteCommas(s[1..])
  }

  predicate NoLetter(s: string) {
    forall i :: 0 <= i < |s| ==> !IsAsciiLetter(s[i])
  }

  lemma {:induction false} NoLetterNoLeadIn(s: string, i: nat)
    requires i <= |s| && NoLetter(s)
    ensures RemoveLeadIns(s, i) == s[i..]
    decreases |s| - i
  {
    if i < |s| {
      PhraseStartsWithLetter(s, i);
      assert LeadInAt(s, i) == 0;
      NoLetterNoLeadIn(s, i + 1);
    }
  }

  lemma {:induction false} UnifyIgnoresCommas(s: string)
    ensures UnifyDashes(DeleteCommas(s)) == UnifyDashes(s)
  {
    if s != [] {
      UnifyIgnoresCommas(s[1..]);
      var x := DeleteCommas(s);
      if s[0] != ',' {
        assert x == [s[0]] + DeleteCommas(s[1..]);
        assert x[0] == s[0];
        assert x[1..] == DeleteCommas(s[1..]);
        assert UnifyDashes(x) == UnifyDashes([s[0]]) + UnifyDashes(s[1..]);
      } else {
        assert x == DeleteCommas(s[1..]);
      }
    }
  }

  lemma {:induction false} DeleteCommasNoLetter(s: string)
    requires NoLetter(s)
    ensures NoLetter(DeleteCommas(s))
  {
    if s != [] {
      DeleteCommasNoLetter(s[1..]);
    }
  }

  /** Thousands separators are invisible: in a text without letters, the
      price is the same with every comma deleted ("1,234" reads as "1234"). */
  lemma {:induction false} CommasIgnored(s: string)
    requires NoLetter(s)
    ensures ParsePrice(s) == ParsePrice(DeleteCommas(s))
  {
    NoLetterNoLeadIn(s, 0);
    DeleteCommasNoLetter(s);
    NoLetterNoLeadIn(DeleteCommas(s), 0);
    assert s[0..] == s;
    assert DeleteCommas(s)[0..] == DeleteCommas(s);
    UnifyIgnoresCommas(s);
  }

  // ---------------------------------------------------------------------
  // Worked examples
  // ---------------------------------------------------------------------

  /** A text with neither dash nor comma is left alone by step 2. */
  lemma {:induction false} UnifyIdentity(s: string)
    requires EnDash !in s && ',' !in s
    ensures UnifyDashes(s) == s
  {
    if s != [] {
      UnifyIdentity(s[1..]);
      assert s == [s[0]] + s[1..];
    }
  }

  lemma {:induction false} UnifyAppend(a: string, b: string)
    ensures UnifyDashes(a + b) == UnifyDashes(a) + UnifyDashes(b)
  {
    if a != [] {
      UnifyAppend(a[1..], b);
      assert (a + b)[1..] == a[1..] + b;
    } else {
      assert a + b == b;
    }
  }

  lemma {:induction false} DigitsNoLetter(d: string)
    requires AllDigits(d)
    ensures NoLetter(d) && EnDash !in d && ',' !in d && '-' !in d
  {
  }

  /** Letter-free text without en dashes and commas is its own normal form. */
  lemma {:induction false} NormalizePlain(text: string)
    requires NoLetter(text) && EnDash !in text && ',' !in text
    ensures Normalize(text) == text
  {
    NoLetterNoLeadIn(text, 0);
    assert text[0..] == text;
    UnifyIdentity(text);
  }

  /** The text "$a" followed by `sep` and "$b". */
  function TwoPrices(a: string, sep: char, b: string): string {
    ['$'] + (a + ([sep] + (['$'] + b)))
  }

  /** Two runs of digits separated by a non-digit are read as two numbers. */
  lemma {:induction false} NumbersOfTwoPrices(a: string, sep: char, b: string)
    requires a != [] && AllDigits(a) && b != [] && AllDigits(b)
    requires !IsAsciiDigit(sep)
    ensures Numbers(TwoPrices(a, sep, b)) == [Decimal(a, ""), Decimal(b, "")]
  {
    var tail := ['$'] + b;
    SkipsNonDigit('$', a + ([sep] + tail));
    ReadsWholeNumber(a, [sep] + tail);
    SkipsNonDigit(sep, tail);
    SkipsNonDigit('$', b);
    assert b + [] == b;
    ReadsWholeNumber(b, []);
  }

  lemma {:induction false} NoLetterTwoPrices(a: string, sep: char, b: string)
    requires AllDigits(a) && AllDigits(b) && !IsAsciiLetter(sep)
    ensures NoLetter(TwoPrices(a, sep, b))
    ensures ',' !in TwoPrices(a, sep, b) <==> sep != ','
    ensures EnDash !in TwoPrices(a, sep, b) <==> sep != EnDash
    ensures '-' !in TwoPrices(a, sep, b) <==> sep != '-'
  {
    var t := TwoPrices(a, sep, b);
    assert t[|a| + 1] == sep;
    DigitsNoLetter(a);
    DigitsNoLetter(b);
  }

  lemma {:induction false} NormalizeTwoPrices(a: string, b: string)
    requires AllDigits(a) && AllDigits(b)
    ensures Normalize(TwoPrices(a, EnDash, b)) == TwoPrices(a, '-', b)
  {
    var text := TwoPrices(a, EnDash, b);
    NoLetterTwoPrices(a, EnDash, b);
    NoLetterNoLeadIn(text, 0);
    assert text[0..] == text;
    var tail := ['$'] + b;
    UnifyAppend(['$'], a + ([EnDash] + tail));
    UnifyAppend(a, [EnDash] + tail);
    UnifyAppend([EnDash], tail);
    UnifyAppend(['$'], b);
    UnifyIdentity(a);
    UnifyIdentity(b);
    assert UnifyDashes(['$']) == ['$'];
    assert UnifyDashes([EnDash]) == ['-'];
  }

  /** "$a–$b", for any two runs of digits: the price is their midpoint. */
  lemma {:induction false} EnDashRangeIsMidpoint(a: string, b: string)
    requires a != [] && AllDigits(a) && b != [] && AllDigits(b)
    ensures ParsePrice(TwoPrices(a, EnDash, b))
      == (Decimal(a, "").Value() + Decimal(b, "").Value()) / 2.0
  {
    NormalizeTwoPrices(a, b);
    NumbersOfTwoPrices(a, '-', b);
    NoLetterTwoPrices(a, '-', b);
  }

  /** "$a—$b" with an em dash (U+2014): not a range, the price is `a`. */
  lemma {:induction false} EmDashIsNotRange(a: string, b: string)
    requires a != [] && AllDigits(a) && b != [] && AllDigits(b)
    ensures ParsePrice(TwoPrices(a, '\U{2014}', b)) == Decimal(a, "").Value()
  {
    NoLetterTwoPrices(a, '\U{2014}', b);
    NormalizePlain(TwoPrices(a, '\U{2014}', b));
    NumbersOfTwoPrices(a, '\U{2014}', b);
  }

  lemma {:induction false} ValueOfTenAndTwenty()
    ensures Decimal("10", "").Value() == 10.0 && Decimal("20", "").Value() == 20.0
  {
    assert DigitsValue("1") == 1 by { assert "1"[..0] == []; }
    assert DigitsValue("2") == 2 by { assert "2"[..0] == []; }
    assert "10"[..1] == "1" && "20"[..1] == "2";
  }

  lemma {:induction false} ValueOfOnePointTwo()
    ensures Decimal("1", "2").Value() == 1.2
  {
    assert DigitsValue("1") == 1 by { assert "1"[..0] == []; }
    assert DigitsValue("2") == 2 by { assert "2"[..0] == []; }
  }

  lemma {:induction false} ValueOfThousand()
    ensures Decimal("1234", "50").Value() == 1234.5
  {
    assert DigitsValue("1") == 1 by { assert "1"[..0] == []; }
    assert DigitsValue("5") == 5 by { assert "5"[..0] == []; }
    assert DigitsValue("50") == 50 by { assert "50"[..1] == "5"; }
    assert DigitsValue("12") == 12 by { assert "12"[..1] == "1"; }
    assert DigitsValue("123") == 123 by { assert "123"[..2] == "12"; }
    assert DigitsValue("1234") == 1234 by { assert "1234"[..3] == "123"; }
    assert Pow10(2) == 100;
  }

  /** "Free" has no price. */
  lemma {:induction false} ExampleFree(text: string)
    requires text == "Free"
    ensures ParsePrice(text) == 0.0
  {
    NoDigitNoPrice(text);
  }

  /** "$10–$20" is priced at 15. */
  lemma {:induction false} ExampleEnDashRange(text: string)
    requires text == "$10\U{2013}$20"
    ensures ParsePrice(text) == 15.0
  {
    assert text == TwoPrices("10", EnDash, "20");
    EnDashRangeIsMidpoint("10", "20");
    ValueOfTenAndTwenty();
  }

  /** "$10—$20" with an em dash is priced at 10. */
  lemma {:induction false} ExampleEmDash(text: string)
    requires text == "$10\U{2014}$20"
    ensures ParsePrice(text) == 10.0
  {
    assert text == TwoPrices("10", '\U{2014}', "20");
    EmDashIsNotRange("10", "20");
    ValueOfTenAndTwenty();
  }

  /** The text " $a.f". */
  function PlainPrice(a: string, f: string): string {
    [' ', '$'] + (a + (['.'] + f))
  }

  /** " $a.f" has the price a.f. */
  lemma {:induction false} PlainDecimal(a: string, f: string)
    requires a != [] && AllDigits(a) && f != [] && AllDigits(f)
    ensures ParsePrice(PlainPrice(a, f)) == Decimal(a, f).Value()
  {
    var text := PlainPrice(a, f);
    PlainPriceIsPlain(a, f);
    NormalizePlain(text);
    assert f + [] == f;
    ReadsFractionParts(a, f, []);
    assert text[1..] == ['$'] + (a + (['.'] + f));
    SkipsNonDigit(' ', text[1..]);
    SkipsNonDigit('$', a + (['.'] + f));
  }

  lemma {:induction false} PlainPriceIsPlain(a: string, f: string)
    requires AllDigits(a) && AllDigits(f)
    ensures NoLetter(PlainPrice(a, f)) && EnDash !in PlainPrice(a, f) && ',' !in PlainPrice(a, f)
  {
    DigitsNoLetter(a);
    DigitsNoLetter(f);
  }

  lemma {:induction false} DeleteCommasAppend(a: string, b: string)
    ensures DeleteCommas(a + b) == DeleteCommas(a) + DeleteCommas(b)
  {
    if a == [] {
      assert a + b == b;
    } else {
      var ab := a + b;
      assert ab[0] == a[0] && ab[1..] == a[1..] + b;
      DeleteCommasAppend(a[1..], b);
      if a[0] != ',' {
        calc {
          DeleteCommas(ab);
          [a[0]] + DeleteCommas(a[1..] + b);
          [a[0]] + (DeleteCommas(a[1..]) + DeleteCommas(b));
          ([a[0]] + DeleteCommas(a[1..])) + DeleteCommas(b);
        }
      }
    }
  }

  lemma {:induction false} DeleteCommasIdentity(s: string)
    requires ',' !in s
    ensures DeleteCommas(s) == s
  {
    if s != [] {
      DeleteCommasIdentity(s[1..]);
      assert s == [s[0]] + s[1..];
    }
  }

  /** The text " $a,b.f": a price with a thousands separator. */
  function GroupedPrice(a: string, b: string, f: string): string {
    [' ', '$'] + (a + ([','] + (b + (['.'] + f))))
  }

  lemma {:induction false} GroupedPriceNoLetter(a: string, b: string, f: string)
    requires AllDigits(a) && AllDigits(b) && AllDigits(f)
    ensures NoLetter(GroupedPrice(a, b, f))
  {
    DigitsNoLetter(a);
    DigitsNoLetter(b);
    DigitsNoLetter(f);
  }

  /** Deleting the separator from " $a,b.f" leaves " $ab.f". */
  lemma {:induction false} GroupedPriceUngrouped(a: string, b: string, f: string)
    requires AllDigits(a) && AllDigits(b) && AllDigits(f)
    ensures DeleteCommas(GroupedPrice(a, b, f)) == PlainPrice(a + b, f)
  {
    var head, tail := [' ', '$'] + a, b + (['.'] + f);
    assert GroupedPrice(a, b, f) == head + ([','] + tail);
    assert PlainPrice(a + b, f) == head + tail;
    assert ',' !in head by {
      assert forall i :: 0 <= i < |a| ==> head[i + 2] == a[i];
    }
    assert ',' !in tail by {
      assert forall i :: 0 <= i < |b| ==> tail[i] == b[i];
      assert forall i :: 0 <= i < |f| ==> tail[|b| + 1 + i] == f[i];
    }
    OneCommaDeleted(head, tail);
  }

  lemma {:induction false} OneCommaDeleted(a: string, b: string)
    requires ',' !in a && ',' !in b
    ensures DeleteCommas(a + ([','] + b)) == a + b
  {
    DeleteCommasAppend(a, [','] + b);
    assert ([','] + b)[1..] == b;
    DeleteCommasIdentity(a);
    DeleteCommasIdentity(b);
  }

  /** "Starting at $1,234.50" and its kind are priced at 1234.5: the lead-in
      phrase (in any letter case) and the thousands separator are both
      ignored. */
  lemma {:induction false} ExampleStartingAt(w: string, a: string, b: string, f: string)
    requires Lower(w) == "starting at"
    requires a != [] && AllDigits(a) && AllDigits(b) && f != [] && AllDigits(f)
    ensures ParsePrice(w + GroupedPrice(a, b, f)) == Decimal(a + b, f).Value()
  {
    var t := GroupedPrice(a, b, f);
    LeadInIgnored(w, t);
    GroupedPriceNoLetter(a, b, f);
    GroupedPriceUngrouped(a, b, f);
    CommasIgnored(t);
    PlainDecimal(a + b, f);
  }

  lemma {:induction false} ExampleStartingAtThousand(w: string)
    requires Lower(w) == "starting at"
    ensures ParsePrice(w + GroupedPrice("1", "234", "50")) == 1234.5
  {
    assert AllDigits("1") && AllDigits("234") && AllDigits("50");
    ExampleStartingAt(w, "1", "234", "50");
    assert "1" + "234" == "1234";
    ValueOfThousand();
  }

  lemma {:induction false} NumbersOfTwoPoints(text: string)
    requires text == "1" + (['.'] + ("2" + ['.', '3']))
    ensures Numbers(text) == [Decimal("1", "2"), Decimal("3", "")]
  {
    ReadsFractionParts("1", "2", ['.', '3']);
    SkipsNonDigit('.', "3");
    assert "3" == "3" + [];
    ReadsWholeNumber("3", []);
  }

  lemma {:induction false} TwoPointsIsPlain(text: string)
    requires text == "1.2.3"
    ensures text == "1" + (['.'] + ("2" + ['.', '3']))
    ensures NoLetter(text) && EnDash !in text && ',' !in text && '-' !in text
  {
  }

  /** Numbers are read left to right without overlap: "1.2.3" holds 1.2
      and then 3, and its price is 1.2. */
  lemma {:induction false} ExampleTwoPoints(text: string)
    requires text == "1.2.3"
    ensures Numbers(text) == [Decimal("1", "2"), Decimal("3", "")]
    ensures ParsePrice(text) == 1.2
  {
    TwoPointsIsPlain(text);
    NumbersOfTwoPoints(text);
    NormalizePlain(text);
    ValueOfOnePointTwo();
  }

  lemma {:induction false} ThousandsSplits()
    ensures NoLetter("1,234") && DeleteCommas("1,234") == "1234"
  {
  }

  /** "1,234" and "1234" have the same price. */
  lemma {:induction false} ExampleThousands(a: string, b: string)
    requires a == "1,234" && b == "1234"
    ensures ParsePrice(a) == ParsePrice(b)
  {
    ThousandsSplits();
    CommasIgnored(a);
  }
}
