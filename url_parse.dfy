/** The part of Python's `urllib.parse` that the web-search scraper relies
    on: `urlsplit`/`urlparse` (scheme, authority, path, query), `parse_qs`
    (application/x-www-form-urlencoded query strings) and `unquote`
    (percent-decoding as in section 2.1 of RFC 3986, followed by UTF-8
    decoding with the "replace" error handler). `quote` is defined as the
    partner of `unquote`. */
module UrlParse {
  import opened Values
  import opened Text

  type Byte = b: int | 0 <= b < 256

  /** U+FFFD, what the "replace" handler puts for a malformed sequence. */
  const Replacement: char := '�'

  /** Python's `s.find(c)`: the first index of `c`, or -1. */
  function Find(s: string, c: char): (i: int)
    ensures -1 <= i < |s|
    ensures i == -1 <==> c !in s
    ensures 0 <= i ==> s[i] == c && c !in s[..i]
  {
    if s == [] then -1
    else if s[0] == c then 0
    else
      var j := Find(s[1..], c);
      if j < 0 then -1
      else
        assert s[..j + 1] == [s[0]] + s[1..][..j];
        j + 1
  }

  // ---------------------------------------------------------------------
  // UTF-8

  /** The UTF-8 encoding of one scalar value. */
  function EncodeChar(c: char): (r: seq<Byte>)
    ensures 1 <= |r| <= 4
  {
    var n := c as int;
    var d1 := n / 64;
    var d2 := d1 / 64;
    if n < 0x80 then [n]
    else if n < 0x800 then [0xC0 + d1, 0x80 + n % 64]
    else if n < 0x10000 then [0xE0 + d2, 0x80 + d1 % 64, 0x80 + n % 64]
    else [0xF0 + d2 / 64, 0x80 + d2 % 64, 0x80 + d1 % 64, 0x80 + n % 64]
  }

  /** `s.encode("utf-8")`. */
  function Encode(s: string): seq<Byte> {
    if s == [] then [] else EncodeChar(s[0]) + Encode(s[1..])
  }

  /** How long the sequence a lead byte starts is: 1 to 4, or 0 for a
      byte that cannot start one (80..C1, F5..FF). */
  function SequenceLength(lead: Byte): (n: nat)
    ensures n <= 4
  {
    if lead < 0x80 then 1
    else if 0xC2 <= lead <= 0xDF then 2
    else if 0xE0 <= lead <= 0xEF then 3
    else if 0xF0 <= lead <= 0xF4 then 4
    else 0
  }

  /** The bytes allowed second after a lead byte (Unicode, Table 3-7). */
  predicate SecondOk(lead: Byte, b: Byte) {
    if lead == 0xE0 then 0xA0 <= b <= 0xBF
    else if lead == 0xED then 0x80 <= b <= 0x9F
    else if lead == 0xF0 then 0x90 <= b <= 0xBF
    else if lead == 0xF4 then 0x80 <= b <= 0x8F
    else 0x80 <= b <= 0xBF
  }

  predicate IsContinuation(b: Byte) { 0x80 <= b <= 0xBF }

  /** How many bytes of `b`, which starts with a multi-byte lead of a
      `len`-byte sequence, belong to a well-formed prefix of one: the
      "maximal subpart" a single U+FFFD replaces when the sequence breaks. */
  function Matched(b: seq<Byte>, len: nat): (k: nat)
    requires |b| >= 1 && 2 <= len <= 4
    ensures 1 <= k <= len && k <= |b|
  {
    if |b| < 2 || !SecondOk(b[0], b[1]) then 1
    else if len == 2 then 2
    else if |b| < 3 || !IsContinuation(b[2]) then 2
    else if len == 3 then 3
    else if |b| < 4 || !IsContinuation(b[3]) then 3
    else 4
  }

  /** The scalar value a complete well-formed multi-byte sequence encodes. */
  function Scalar(b: seq<Byte>, len: nat): (c: char)
    requires 2 <= len <= 4 && |b| >= len && SequenceLength(b[0]) == len
    requires Matched(b, len) == len
  {
    var b0, b1 := b[0] as int, b[1] as int;
    if len == 2 then ((b0 - 0xC0) * 64 + (b1 - 0x80)) as char
    else if len == 3 then ((b0 - 0xE0) * 4096 + (b1 - 0x80) * 64 + (b[2] as int - 0x80)) as char
    else ((b0 - 0xF0) * 0x40000 + (b1 - 0x80) * 4096 + (b[2] as int - 0x80) * 64 + (b[3] as int - 0x80)) as char
  }

  /** `b.decode("utf-8", "replace")`: every maximal malformed subpart
      becomes one U+FFFD. */
  function Decode(b: seq<Byte>): string
    decreases |b|
  {
    if b == [] then []
    else
      var len := SequenceLength(b[0]);
      if len == 1 then [b[0] as char] + Decode(b[1..])
      else if len == 0 then [Replacement] + Decode(b[1..])
      else
        var k := Matched(b, len);
        if k == len then [Scalar(b, len)] + Decode(b[len..])
        else [Replacement] + Decode(b[k..])
  }

  lemma DecodeTwo(c: char, rest: seq<Byte>)
    requires 0x80 <= c as int < 0x800
    ensures Decode(EncodeChar(c) + rest) == [c] + Decode(rest)
  {
    var n := c as int;
    var b := EncodeChar(c) + rest;
    assert b[0] == 0xC0 + n / 64 && b[1] == 0x80 + n % 64 && b[2..] == rest;
    assert SequenceLength(b[0]) == 2 && Matched(b, 2) == 2;
    assert Scalar(b, 2) == c;
  }

  lemma DecodeThree(c: char, rest: seq<Byte>)
    requires 0x800 <= c as int < 0x10000
    ensures Decode(EncodeChar(c) + rest) == [c] + Decode(rest)
  {
    var n := c as int;
    var d1 := n / 64;
    var d2 := d1 / 64;
    var b := EncodeChar(c) + rest;
    assert b[0] == 0xE0 + d2 && b[1] == 0x80 + d1 % 64 && b[2] == 0x80 + n % 64;
    assert b[3..] == rest;
    assert n == 64 * d1 + n % 64 && d1 == 64 * d2 + d1 % 64;
    assert SequenceLength(b[0]) == 3;
    assert SecondOk(b[0], b[1]);
    assert Matched(b, 3) == 3;
    assert Scalar(b, 3) == c;
  }

  lemma DecodeFour(c: char, rest: seq<Byte>)
    requires 0x10000 <= c as int
    ensures Decode(EncodeChar(c) + rest) == [c] + Decode(rest)
  {
    var n := c as int;
    var d1 := n / 64;
    var d2 := d1 / 64;
    var d3 := d2 / 64;
    var b := EncodeChar(c) + rest;
    assert b[0] == 0xF0 + d3 && b[1] == 0x80 + d2 % 64;
    assert b[2] == 0x80 + d1 % 64 && b[3] == 0x80 + n % 64;
    assert b[4..] == rest;
    assert n == 64 * d1 + n % 64 && d1 == 64 * d2 + d1 % 64 && d2 == 64 * d3 + d2 % 64;
    assert SequenceLength(b[0]) == 4;
    assert SecondOk(b[0], b[1]);
    assert Matched(b, 4) == 4;
    assert Scalar(b, 4) == c;
  }

  /** Decoding reads back the character an encoding starts with. */
  lemma DecodeEncodeChar(c: char, rest: seq<Byte>)
    ensures Decode(EncodeChar(c) + rest) == [c] + Decode(rest)
  {
    var n := c as int;
    if n < 0x80 {
      assert (EncodeChar(c) + rest)[1..] == rest;
    } else if n < 0x800 {
      DecodeTwo(c, rest);
    } else if n < 0x10000 {
      DecodeThree(c, rest);
    } else {
      DecodeFour(c, rest);
    }
  }

  /** UTF-8 decoding inverts UTF-8 encoding. */
  lemma {:induction false} DecodeEncode(s: string)
    ensures Decode(Encode(s)) == s
  {
    if s != [] {
      DecodeEncodeChar(s[0], Encode(s[1..]));
      DecodeEncode(s[1..]);
    }
  }

  // ---------------------------------------------------------------------
  // Percent-decoding

  predicate IsAscii(c: char) { c as int < 0x80 }

  predicate IsHexDigit(c: char) { ('0' <= c <= '9') || ('a' <= c <= 'f') || ('A' <= c <= 'F') }

  function HexValue(c: char): (v: nat)
    requires IsHexDigit(c)
    ensures v < 16
  {
    if '0' <= c <= '9' then c as int - '0' as int
    else if 'a' <= c <= 'f' then c as int - 'a' as int + 10
    else c as int - 'A' as int + 10
  }

  /** `unquote_to_bytes(s)`: the UTF-8 bytes of `s`, where each `%` with two
      hex digits after it stands for the byte they spell and any other `%`
      stays as it is. */
  function PercentDecode(s: string): seq<Byte> {
    if s == [] then []
    else if s[0] == '%' && 3 <= |s| && IsHexDigit(s[1]) && IsHexDigit(s[2]) then
      [16 * HexValue(s[1]) + HexValue(s[2])] + PercentDecode(s[3..])
    else EncodeChar(s[0]) + PercentDecode(s[1..])
  }

  /** The length of the run of ASCII characters `s` starts with. */
  function AsciiRun(s: string): (n: nat)
    ensures n <= |s|
    ensures forall i :: 0 <= i < n ==> IsAscii(s[i])
    ensures n < |s| ==> !IsAscii(s[n])
  {
    if s == [] || !IsAscii(s[0]) then 0 else 1 + AsciiRun(s[1..])
  }

  /** Decoding run by run: non-ASCII characters are kept, and each maximal
      ASCII run is percent-decoded and then decoded as UTF-8. */
  function UnquoteRuns(s: string): string
    decreases |s|
  {
    if s == [] then []
    else if !IsAscii(s[0]) then [s[0]] + UnquoteRuns(s[1..])
    else
      var n := AsciiRun(s);
      Decode(PercentDecode(s[..n])) + UnquoteRuns(s[n..])
  }

  /** `unquote(s)`: a string without `%` is returned as it is. */
  function Unquote(s: string): string {
    if '%' !in s then s else UnquoteRuns(s)
  }

  /** A run of ASCII characters without `%` decodes to itself. */
  lemma {:induction false} PlainRunDecodes(r: string)
    requires forall i :: 0 <= i < |r| ==> IsAscii(r[i])
    requires '%' !in r
    ensures Decode(PercentDecode(r)) == r
  {
    if r != [] {
      assert '%' !in r[1..];
      PlainRunDecodes(r[1..]);
      DecodeEncodeChar(r[0], PercentDecode(r[1..]));
    }
  }

  /** The shortcut of `unquote` agrees with its general case: without `%`,
      decoding changes nothing. */
  lemma {:induction false} UnquoteRunsPlain(s: string)
    requires '%' !in s
    ensures UnquoteRuns(s) == s
    decreases |s|
  {
    if s != [] {
      if !IsAscii(s[0]) {
        assert '%' !in s[1..];
        UnquoteRunsPlain(s[1..]);
      } else {
        var n := AsciiRun(s);
        assert s[..n] + s[n..] == s;
        assert '%' !in s[..n] && '%' !in s[n..];
        PlainRunDecodes(s[..n]);
        UnquoteRunsPlain(s[n..]);
      }
    }
  }

  /** So `unquote` is the run-by-run decoding on every input. */
  lemma UnquoteIsRuns(s: string)
    ensures Unquote(s) == UnquoteRuns(s)
  {
    if '%' !in s {
      UnquoteRunsPlain(s);
    }
  }

  // ---------------------------------------------------------------------
  // Percent-encoding, the partner of `Unquote`

  /** The characters `quote` leaves alone with its default `safe="/"`. */
  predicate QuoteSafe(c: char) {
    IsAsciiLetter(c) || IsAsciiDigit(c) || c == '_' || c == '.' || c == '-' || c == '~' || c == '/'
  }

  function HexDigit(v: nat): (c: char)
    requires v < 16
    ensures IsHexDigit(c) && HexValue(c) == v
  {
    if v < 10 then ('0' as int + v) as char else ('A' as int + v - 10) as char
  }

  /** `%XX` for each byte, upper-case hex. */
  function PercentBytes(b: seq<Byte>): string {
    if b == [] then [] else ['%', HexDigit(b[0] / 16), HexDigit(b[0] % 16)] + PercentBytes(b[1..])
  }

  /** `quote(s)`: safe characters as they are, every other one as the
      percent-escapes of its UTF-8 bytes. */
  function Quote(s: string): string {
    if s == [] then []
    else (if QuoteSafe(s[0]) then [s[0]] else PercentBytes(EncodeChar(s[0]))) + Quote(s[1..])
  }

  /** The characters `quote` can produce. */
  predicate QuotedChar(c: char) { QuoteSafe(c) || c == '%' || IsHexDigit(c) }

  lemma {:induction false} PercentBytesChars(b: seq<Byte>)
    ensures forall i :: 0 <= i < |PercentBytes(b)| ==> QuotedChar(PercentBytes(b)[i])
  {
    if b != [] {
      PercentBytesChars(b[1..]);
    }
  }

  /** Quoting leaves only safe characters, `%` and hex digits: no
      character that separates URL parts or query fields, and no `+`. */
  lemma {:induction false} QuoteChars(s: string)
    ensures forall i :: 0 <= i < |Quote(s)| ==> QuotedChar(Quote(s)[i])
  {
    if s != [] {
      QuoteChars(s[1..]);
      if !QuoteSafe(s[0]) {
        PercentBytesChars(EncodeChar(s[0]));
      }
    }
  }

  /** One escape decodes to the byte it spells. */
  lemma PercentDecodeEscape(x: Byte, rest: string)
    ensures PercentDecode(['%', HexDigit(x / 16), HexDigit(x % 16)] + rest) == [x] + PercentDecode(rest)
  {
    var s := ['%', HexDigit(x / 16), HexDigit(x % 16)] + rest;
    assert s[3..] == rest;
  }

  lemma {:induction false} PercentDecodeBytes(b: seq<Byte>, rest: string)
    ensures PercentDecode(PercentBytes(b) + rest) == b + PercentDecode(rest)
  {
    if b != [] {
      var e := ['%', HexDigit(b[0] / 16), HexDigit(b[0] % 16)];
      assert PercentBytes(b) == e + PercentBytes(b[1..]);
      assert PercentBytes(b) + rest == e + (PercentBytes(b[1..]) + rest);
      PercentDecodeEscape(b[0], PercentBytes(b[1..]) + rest);
      PercentDecodeBytes(b[1..], rest);
      assert b + PercentDecode(rest) == [b[0]] + (b[1..] + PercentDecode(rest));
    } else {
      assert PercentBytes(b) + rest == rest;
    }
  }

  /** Percent-decoding a quoted string gives back its UTF-8 bytes. */
  lemma {:induction false} PercentDecodeQuote(s: string)
    ensures PercentDecode(Quote(s)) == Encode(s)
  {
    if s != [] {
      PercentDecodeQuote(s[1..]);
      if QuoteSafe(s[0]) {
        assert ([s[0]] + Quote(s[1..]))[1..] == Quote(s[1..]);
      } else {
        PercentDecodeBytes(EncodeChar(s[0]), Quote(s[1..]));
      }
    }
  }

  /** An all-ASCII string is a single run. */
  lemma {:induction false} AsciiIsOneRun(s: string)
    requires forall i :: 0 <= i < |s| ==> IsAscii(s[i])
    ensures UnquoteRuns(s) == Decode(PercentDecode(s))
  {
    if s != [] {
      assert AsciiRun(s) == |s|;
      assert s[..|s|] == s && s[|s|..] == [];
    }
  }

  /** `unquote(quote(s)) == s` for every string. */
  lemma UnquoteQuote(s: string)
    ensures Unquote(Quote(s)) == s
  {
    var q := Quote(s);
    QuoteChars(s);
    assert forall i :: 0 <= i < |q| ==> IsAscii(q[i]) by {
      forall i | 0 <= i < |q| ensures IsAscii(q[i]) {
        assert QuotedChar(q[i]);
      }
    }
    UnquoteIsRuns(q);
    AsciiIsOneRun(q);
    PercentDecodeQuote(s);
    DecodeEncode(s);
  }

  // ---------------------------------------------------------------------
  // Query strings

  /** `s.split(sep)`. */
  function SplitOn(s: string, sep: char): (r: seq<string>)
    ensures |r| >= 1
    decreases |s|
  {
    var i := Find(s, sep);
    if i < 0 then [s] else [s[..i]] + SplitOn(s[i + 1..], sep)
  }

  /** `s.replace("+", " ")`. */
  function PlusToSpace(s: string): (r: string)
    ensures |r| == |s|
    ensures forall i :: 0 <= i < |s| ==> r[i] == (if s[i] == '+' then ' ' else s[i])
  {
    if s == [] then [] else [if s[0] == '+' then ' ' else s[0]] + PlusToSpace(s[1..])
  }

  /** The name-value pair one `&`-separated field gives: none when it is
      empty, has no `=` or has an empty value. */
  function Field(f: string): Option<(string, string)> {
    var eq := Find(f, '=');
    if eq < 0 || eq + 1 == |f| then None
    else Some((Unquote(PlusToSpace(f[..eq])), Unquote(PlusToSpace(f[eq + 1..]))))
  }

  function Fields(fs: seq<string>): seq<(string, string)> {
    if fs == [] then []
    else (if Field(fs[0]).Some? then [Field(fs[0]).value] else []) + Fields(fs[1..])
  }

  /** `parse_qsl(qs)` with the defaults `parse_qs` uses. */
  function ParseQsl(qs: string): seq<(string, string)> {
    if qs == [] then [] else Fields(SplitOn(qs, '&'))
  }

  /** `parse_qs(qs).get(name, [d])[0]`: the first value given for `name`. */
  function FirstValue(pairs: seq<(string, string)>, name: string): Option<string> {
    if pairs == [] then None
    else if pairs[0].0 == name then Some(pairs[0].1)
    else FirstValue(pairs[1..], name)
  }

  lemma SplitOnAbsent(s: string, sep: char)
    requires sep !in s
    ensures SplitOn(s, sep) == [s]
  {
  }

  lemma PlusToSpaceNoPlus(s: string)
    requires '+' !in s
    ensures PlusToSpace(s) == s
  {
    assert forall i :: 0 <= i < |s| ==> PlusToSpace(s)[i] == s[i];
  }

  /** The quoted form of a non-empty string is non-empty and holds no `&`,
      `=`, `+`, `#`, nor a character `urlsplit` deletes. */
  lemma QuoteSeparators(value: string)
    requires value != []
    ensures Quote(value) != []
    ensures '&' !in Quote(value) && '=' !in Quote(value) && '+' !in Quote(value)
    ensures '#' !in Quote(value) && Safe(Quote(value))
  {
    var q := Quote(value);
    QuoteChars(value);
    forall i | 0 <= i < |q| ensures q[i] != '&' && q[i] != '=' && q[i] != '+' && q[i] != '#' && !IsUnsafe(q[i]) {
      assert QuotedChar(q[i]);
    }
    if !QuoteSafe(value[0]) {
      assert |PercentBytes(EncodeChar(value[0]))| > 0;
    }
  }

  /** A field `name=value` with a non-empty value and no `+` gives the
      decoded name and value. */
  lemma FieldOf(name: string, value: string)
    requires '=' !in name && '+' !in name && '+' !in value && value != []
    ensures Field(name + "=" + value) == Some((Unquote(name), Unquote(value)))
  {
    var f := name + "=" + value;
    assert f[|name|] == '=' && f[..|name|] == name;
    assert Find(f, '=') == |name|;
    assert f[|name| + 1..] == value;
    PlusToSpaceNoPlus(name);
    PlusToSpaceNoPlus(value);
  }

  /** A query string of one field whose value is quoted gives that name and
      the original value back. */
  lemma SingleField(name: string, value: string)
    requires '=' !in name && '&' !in name && '+' !in name && '%' !in name
    requires value != []
    ensures ParseQsl(name + "=" + Quote(value)) == [(name, value)]
    ensures FirstValue(ParseQsl(name + "=" + Quote(value)), name) == Some(value)
  {
    var q := Quote(value);
    var qs := name + "=" + q;
    QuoteSeparators(value);
    assert '&' !in qs;
    SplitOnAbsent(qs, '&');
    FieldOf(name, q);
    UnquoteQuote(value);
    assert ParseQsl(qs) == Fields([qs]);
  }

  // ---------------------------------------------------------------------
  // Splitting URLs

  /** The five parts `urlsplit` returns; `urlparse` cuts `;params` off the
      path as well. */
  datatype Parts = Parts(scheme: string, netloc: string, path: string, query: string, fragment: string)

  /** `_WHATWG_C0_CONTROL_OR_SPACE`, stripped from the start of a URL. */
  predicate IsC0OrSpace(c: char) { c as int <= 0x20 }

  /** `_UNSAFE_URL_BYTES_TO_REMOVE`, deleted everywhere. */
  predicate IsUnsafe(c: char) { c == '\t' || c == '\r' || c == '\n' }

  function LStripC0(s: string): (r: string)
    ensures r == [] || !IsC0OrSpace(r[0])
  {
    if s != [] && IsC0OrSpace(s[0]) then LStripC0(s[1..]) else s
  }

  function RemoveUnsafe(s: string): (r: string)
    ensures forall i :: 0 <= i < |r| ==> !IsUnsafe(r[i])
  {
    if s == [] then []
    else (if IsUnsafe(s[0]) then [] else [s[0]]) + RemoveUnsafe(s[1..])
  }

  predicate IsSchemeChar(c: char) {
    IsAsciiLetter(c) || IsAsciiDigit(c) || c == '+' || c == '-' || c == '.'
  }

  /** A scheme: an ASCII letter, then scheme characters. */
  predicate IsScheme(s: string) {
    s != [] && IsAsciiLetter(s[0]) && forall k :: 0 <= k < |s| ==> IsSchemeChar(s[k])
  }

  /** `url[:i].lower(), url[i+1:]` when what comes before the first `:` is
      a scheme; otherwise no scheme and the whole `url`. */
  function SchemeSplit(u: string): (r: (string, string))
    ensures |r.1| <= |u|
  {
    var i := Find(u, ':');
    if i > 0 && IsScheme(u[..i]) then (Lower(u[..i]), u[i + 1..]) else ([], u)
  }

  predicate IsNetlocEnd(c: char) { c == '/' || c == '?' || c == '#' }

  /** Where the authority after `//` ends: at the first `/`, `?` or `#`
      from index `from` on, or at the end. */
  function NetlocEnd(s: string, from: nat): (d: nat)
    requires from <= |s|
    ensures from <= d <= |s|
    ensures forall k :: from <= k < d ==> !IsNetlocEnd(s[k])
    ensures d < |s| ==> IsNetlocEnd(s[d])
    decreases |s| - from
  {
    if from == |s| || IsNetlocEnd(s[from]) then from else NetlocEnd(s, from + 1)
  }

  /** `_splitnetloc(url, 2)` when `url` starts with `//`: the authority
      and what follows it. */
  function NetlocSplit(rest: string): (r: (string, string))
    ensures '/' !in r.0 && '?' !in r.0 && '#' !in r.0
  {
    if |rest| >= 2 && rest[..2] == "//" then
      var d := NetlocEnd(rest, 2);
      assert forall k :: 0 <= k < d - 2 ==> rest[2..d][k] == rest[k + 2];
      (rest[2..d], rest[d..])
    else ([], rest)
  }

  /** `s.split(c, 1)` where `c in s`; `s` and nothing otherwise. */
  function CutAt(s: string, c: char): (r: (string, string))
    ensures c !in r.0 && r.0 <= s
    ensures |r.1| <= |s| && r.1 == s[|s| - |r.1|..]
  {
    var i := Find(s, c);
    if i < 0 then (s, [])
    else
      assert s == s[..i] + [c] + s[i + 1..];
      (s[..i], s[i + 1..])
  }

  /** `urlsplit(url)`: `Err` where it raises `ValueError` (a bracket
      without its partner in the authority). */
  function SplitUrl(url: string): Result<Parts, string> {
    SplitClean(RemoveUnsafe(LStripC0(url)))
  }

  /** The splitting proper, on a URL already cleaned. */
  function SplitClean(u: string): Result<Parts, string> {
    var sc := SchemeSplit(u);
    var nl := NetlocSplit(sc.1);
    var netloc := nl.0;
    if ('[' in netloc) != (']' in netloc) then Err("Invalid IPv6 URL")
    else
      var fr := CutAt(nl.1, '#');
      var pq := CutAt(fr.0, '?');
      Ok(Parts(sc.0, netloc, pq.0, pq.1, fr.1))
  }

  /** No part holds a delimiter that ends it: the authority has no `/`,
      `?` or `#`, the path no `?` or `#`, the query no `#`. */
  lemma SplitDelimiters(url: string)
    requires SplitUrl(url).Ok?
    ensures var p := SplitUrl(url).value;
      && '/' !in p.netloc && '?' !in p.netloc && '#' !in p.netloc
      && '?' !in p.path && '#' !in p.path && '#' !in p.query
  {
    SplitCleanDelimiters(RemoveUnsafe(LStripC0(url)));
  }

  /** The same, for the cleaned URL. */
  lemma SplitCleanDelimiters(u: string)
    requires SplitClean(u).Ok?
    ensures var p := SplitClean(u).value;
      && '/' !in p.netloc && '?' !in p.netloc && '#' !in p.netloc
      && '?' !in p.path && '#' !in p.path && '#' !in p.query
  {
    var nl := NetlocSplit(SchemeSplit(u).1);
    var fr := CutAt(nl.1, '#');
    var pq := CutAt(fr.0, '?');
    assert SplitClean(u).value == Parts(SchemeSplit(u).0, nl.0, pq.0, pq.1, fr.1);
    CutAtKeeps(fr.0, '?', '#');
  }

  /** Cutting a string leaves out of both halves what it does not hold. */
  lemma CutAtKeeps(s: string, c: char, d: char)
    requires d !in s
    ensures d !in CutAt(s, c).0 && d !in CutAt(s, c).1
  {
    var r := CutAt(s, c);
    assert r.0 == s[..|r.0|];
    assert r.1 == s[|s| - |r.1|..];
  }

  /** `uses_params`: the schemes whose paths may carry `;params`. */
  const UsesParams: seq<string> :=
    ["", "ftp", "hdl", "prospero", "http", "imap", "https", "shttp", "rtsp", "rtspu", "sip", "sips", "mms", "sftp", "tel"]

  /** `s.rfind(c)`: the last index of `c`, or -1. */
  function RFind(s: string, c: char): (i: int)
    ensures -1 <= i < |s|
    ensures i == -1 <==> c !in s
    ensures 0 <= i ==> s[i] == c && forall k :: i < k < |s| ==> s[k] != c
  {
    if s == [] then -1
    else if s[|s| - 1] == c then |s| - 1
    else
      assert s == s[..|s| - 1] + [s[|s| - 1]];
      RFind(s[..|s| - 1], c)
  }

  /** `_splitparams(path)[0]` for a path holding a `;`: the path up to the
      first `;` at or after its last `/` (its first `;` when it has no `/`),
      or the whole path when no `;` follows its last `/`. */
  function WithoutParams(path: string): (r: string)
    requires ';' in path
    ensures r <= path
  {
    var from := if '/' in path then RFind(path, '/') else 0;
    var i := Find(path[from..], ';');
    if i < 0 then path else path[..from + i]
  }

  /** What `_splitparams` cuts: the path ends at a `;` that no `/` follows,
      and every `;` it keeps has a `/` after it, so the cut is at the first
      `;` of the last segment. */
  lemma WithoutParamsCut(path: string)
    requires ';' in path
    ensures var r := WithoutParams(path);
      && (|r| < |path| ==> path[|r|] == ';' && forall k :: |r| < k < |path| ==> path[k] != '/')
      && (forall j :: 0 <= j < |r| && path[j] == ';' ==> exists k :: j < k < |path| && path[k] == '/')
  {
    var r := WithoutParams(path);
    var from := if '/' in path then RFind(path, '/') else 0;
    var i := Find(path[from..], ';');
    if i >= 0 {
      assert path[|r|] == path[from..][i];
    }
    forall j | 0 <= j < |r| && path[j] == ';'
      ensures exists k :: j < k < |path| && path[k] == '/'
    {
      if j < from {
        assert path[from] == '/';
      }
    }
  }

  /** Only the last segment of a path loses its parameters. */
  lemma WithoutParamsLastSegment()
    ensures WithoutParams("/a;b/c;d") == "/a;b/c"
  {
    var path := "/a;b/c;d";
    assert path[4] == '/' && path[6] == ';';
    WithoutParamsCut(path);
  }

  /** `urlparse(url)`, reduced to the parts the scraper reads. */
  function Parse(url: string): (r: Result<Parts, string>)
    ensures r.Ok? <==> SplitUrl(url).Ok?
    ensures r.Ok? ==> r.value.(path := SplitUrl(url).value.path) == SplitUrl(url).value
    ensures r.Ok? && ';' !in SplitUrl(url).value.path ==> r == SplitUrl(url)
    ensures r.Ok? ==> r.value.path == ParsedPath(SplitUrl(url).value.scheme, SplitUrl(url).value.path)
  {
    match SplitUrl(url)
    case Err(e) => Err(e)
    case Ok(p) =>
      if p.scheme in UsesParams && ';' in p.path then Ok(p.(path := WithoutParams(p.path)))
      else Ok(p)
  }

  /** Cutting `;params` off a path keeps every prefix without `;` it starts
      with, and adds none. */
  lemma WithoutParamsPrefix(path: string, prefix: string)
    requires ';' in path && ';' !in prefix
    ensures StartsWith(WithoutParams(path), prefix) <==> StartsWith(path, prefix)
  {
    var r := WithoutParams(path);
    WithoutParamsCut(path);
    if StartsWith(path, prefix) {
      assert r[..|prefix|] == path[..|prefix|];
    }
    if StartsWith(r, prefix) {
      assert path[..|prefix|] == r[..|prefix|];
    }
  }

  /** No character `urlsplit` deletes. */
  predicate Safe(s: string) {
    forall k :: 0 <= k < |s| ==> !IsUnsafe(s[k])
  }

  lemma SafeConcat(a: string, b: string)
    requires Safe(a) && Safe(b)
    ensures Safe(a + b)
  {
    assert forall k :: |a| <= k < |a + b| ==> (a + b)[k] == b[k - |a|];
  }

  lemma {:induction false} NoUnsafeKept(s: string)
    requires Safe(s)
    ensures RemoveUnsafe(s) == s
  {
    if s != [] {
      NoUnsafeKept(s[1..]);
    }
  }

  lemma SchemeSplitOf(scheme: string, rest: string)
    requires IsScheme(scheme)
    ensures SchemeSplit(scheme + ":" + rest) == (Lower(scheme), rest)
  {
    var u := scheme + ":" + rest;
    assert u[|scheme|] == ':' && u[..|scheme|] == scheme;
    assert ':' !in scheme;
    assert Find(u, ':') == |scheme|;
    assert u[|scheme| + 1..] == rest;
  }

  lemma NetlocSplitOf(host: string, after: string)
    requires forall k :: 0 <= k < |host| ==> !IsNetlocEnd(host[k])
    requires after == [] || IsNetlocEnd(after[0])
    ensures NetlocSplit("//" + host + after) == (host, after)
  {
    var rest := "//" + host + after;
    assert rest[..2] == "//";
    var d := NetlocEnd(rest, 2);
    if after != [] {
      assert rest[2 + |host|] == after[0];
    }
    assert d == 2 + |host|;
    assert rest[2..d] == host && rest[d..] == after;
  }

  lemma CutAtFirst(a: string, c: char, b: string)
    requires c !in a
    ensures CutAt(a + [c] + b, c) == (a, b)
  {
    var s := a + [c] + b;
    assert s[|a|] == c && s[..|a|] == a;
    assert Find(s, c) == |a|;
    assert s[|a| + 1..] == b;
  }

  /** `scheme://host` followed by `path`, and by `?query` when there is a
      query. */
  function Absolute(scheme: string, host: string, path: string, query: Option<string>): string {
    scheme + "://" + host + path + (if query.Some? then "?" + query.value else [])
  }

  /** The query string `urlsplit` reports: empty when there is none. */
  function QueryOf(query: Option<string>): string {
    if query.Some? then query.value else []
  }

  /** A scheme, and an authority with none of the delimiters that end it,
      balanced brackets and nothing `urlsplit` deletes. */
  predicate SchemeAndHost(scheme: string, host: string) {
    && IsScheme(scheme)
    && (forall k :: 0 <= k < |host| ==> !IsNetlocEnd(host[k]))
    && '[' !in host && ']' !in host && Safe(host)
  }

  /** A path that is empty or absolute and a query that hold none of the
      delimiters that end them, and nothing `urlsplit` deletes. */
  predicate PathAndQuery(path: string, query: Option<string>) {
    && (path == [] || path[0] == '/') && '?' !in path && '#' !in path && Safe(path)
    && (query.Some? ==> '#' !in query.value && Safe(query.value))
  }

  /** What follows the authority in `Absolute`. */
  function Tail(path: string, query: Option<string>): string {
    path + (if query.Some? then "?" + query.value else [])
  }

  /** Such a URL is left as it is by the cleaning `urlsplit` does first. */
  lemma CleanUrl(scheme: string, host: string, path: string, query: Option<string>)
    requires SchemeAndHost(scheme, host) && PathAndQuery(path, query)
    ensures var url := Absolute(scheme, host, path, query);
      RemoveUnsafe(LStripC0(url)) == url
  {
    var url := Absolute(scheme, host, path, query);
    assert url[0] == scheme[0] && LStripC0(url) == url;
    assert Safe(scheme) by {
      forall k | 0 <= k < |scheme| ensures !IsUnsafe(scheme[k]) {
        assert IsSchemeChar(scheme[k]);
      }
    }
    SafeConcat(scheme, "://");
    SafeConcat(scheme + "://", host);
    SafeConcat(scheme + "://" + host, path);
    if query.Some? {
      SafeConcat("?", query.value);
    }
    SafeConcat(scheme + "://" + host + path, if query.Some? then "?" + query.value else []);
    NoUnsafeKept(url);
  }

  /** The tail splits into the path and the query, with no fragment. */
  lemma TailSplit(path: string, query: Option<string>)
    requires PathAndQuery(path, query)
    ensures var after := Tail(path, query);
      && (after == [] || IsNetlocEnd(after[0]))
      && CutAt(after, '#') == (after, [])
      && CutAt(after, '?') == (path, QueryOf(query))
  {
    var after := Tail(path, query);
    if query.Some? {
      assert after == path + "?" + query.value;
      CutAtFirst(path, '?', query.value);
      if path == [] {
        assert after[0] == '?';
      }
    } else {
      assert after == path;
    }
    assert '#' !in after;
  }

  /** An absolute URL whose parts contain none of their delimiters splits
      back into those parts; the scheme comes back in lower case. */
  lemma SplitParts(scheme: string, host: string, path: string, query: Option<string>)
    requires SchemeAndHost(scheme, host) && PathAndQuery(path, query)
    ensures SplitUrl(Absolute(scheme, host, path, query)) == Ok(Parts(Lower(scheme), host, path, QueryOf(query), []))
  {
    var after := Tail(path, query);
    var url := Absolute(scheme, host, path, query);
    assert url == scheme + ":" + ("//" + host + after);
    CleanUrl(scheme, host, path, query);
    SchemeSplitOf(scheme, "//" + host + after);
    TailSplit(path, query);
    NetlocSplitOf(host, after);
  }

  /** The path `urlparse` reports for `path` under `scheme`: `;params` are
      cut off for the schemes that use them. */
  function ParsedPath(scheme: string, path: string): string {
    if scheme in UsesParams && ';' in path then WithoutParams(path) else path
  }

  /** `urlparse` gives the same parts, with `;params` cut off the path for
      the schemes that use them. */
  lemma ParseParts(scheme: string, host: string, path: string, query: Option<string>)
    requires SchemeAndHost(scheme, host) && PathAndQuery(path, query)
    ensures Parse(Absolute(scheme, host, path, query))
         == Ok(Parts(Lower(scheme), host, ParsedPath(Lower(scheme), path), QueryOf(query), []))
  {
    SplitParts(scheme, host, path, query);
  }

  /** The reported path starts with a prefix without `;` exactly when the
      path does. */
  lemma ParsedPathPrefix(scheme: string, path: string, prefix: string)
    requires ';' !in prefix
    ensures StartsWith(ParsedPath(scheme, path), prefix) <==> StartsWith(path, prefix)
  {
    if scheme in UsesParams && ';' in path {
      WithoutParamsPrefix(path, prefix);
    }
  }
}
