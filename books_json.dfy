/** The text stored under the `"books_all"` cache key: the book listing in
    the layout `json.dumps` gives it with its default separators,
    `[{"id": 1, "title": "Dune", "author": "Herbert"}, ...]`, and the parser
    that reads it back. The two are proved inverse, which is all the service
    relies on. Every parser returns the value it read and the text after it. */
module BooksJson {

  import opened Wrappers
  import opened Schemas
  import opened Seqs

  // ---------------------------------------------------------------- integers

  predicate IsDigit(c: char) {
    '0' <= c <= '9'
  }

  predicate AllDigits(s: string) {
    forall i :: 0 <= i < |s| ==> IsDigit(s[i])
  }

  function DigitValue(c: char): (d: nat)
    requires IsDigit(c)
    ensures d < 10
  {
    c as int - '0' as int
  }

  function DigitChar(d: nat): (c: char)
    requires d < 10
    ensures IsDigit(c) && DigitValue(c) == d
  {
    ('0' as int + d) as char
  }

  /** Decimal digits of `n`, most significant first: `"0"` for zero and no
      leading zero otherwise, as `str(n)` writes them. */
  function Digits(n: nat): (s: string)
    ensures |s| > 0 && AllDigits(s)
    ensures n == 0 <==> s == "0"
    ensures |s| > 1 ==> s[0] != '0'
  {
    if n < 10 then [DigitChar(n)] else Digits(n / 10) + [DigitChar(n % 10)]
  }

  /** The number a run of decimal digits denotes. */
  function DigitsValue(s: string): nat
    requires AllDigits(s)
  {
    if s == [] then 0 else 10 * DigitsValue(s[..|s| - 1]) + DigitValue(s[|s| - 1])
  }

  /** Length of the longest prefix of `s` made of digits. */
  function DigitRunLength(s: string): (k: nat)
    ensures k <= |s| && AllDigits(s[..k])
    ensures k < |s| ==> !IsDigit(s[k])
  {
    if |s| > 0 && IsDigit(s[0]) then
      var k := 1 + DigitRunLength(s[1..]);
      assert s[..k] == [s[0]] + s[1..][..k - 1];
      k
    else 0
  }

  function EncodeInt(n: int): (s: string)
    ensures |s| > 0 && (IsDigit(s[0]) || s[0] == '-')
  {
    if n < 0 then "-" + Digits(-n) else Digits(n)
  }

  /** Reads a non-empty run of digits that does not start with `0` unless
      it is `0` itself, as JSON requires. */
  function ParseNat(s: string): (r: Option<(nat, string)>)
    ensures r.Some? ==> |r.value.1| < |s|
  {
    var k := DigitRunLength(s);
    if k == 0 || (k > 1 && s[0] == '0') then None
    else Some((DigitsValue(s[..k]), s[k..]))
  }

  /** Reads a JSON integer: an optional minus sign and a natural number. */
  function ParseInt(s: string): (r: Option<(int, string)>)
    ensures r.Some? ==> |r.value.1| < |s|
  {
    if |s| > 0 && s[0] == '-' then
      var n :- ParseNat(s[1..]);
      Some((-(n.0 as int), n.1))
    else
      var n :- ParseNat(s);
      Some((n.0 as int, n.1))
  }

  // ----------------------------------------------------------------- strings

  predicate IsHexDigit(c: char) {
    '0' <= c <= '9' || 'a' <= c <= 'f' || 'A' <= c <= 'F'
  }

  function HexValue(c: char): (d: nat)
    requires IsHexDigit(c)
    ensures d < 16
  {
    if '0' <= c <= '9' then c as int - '0' as int
    else if 'a' <= c <= 'f' then c as int - 'a' as int + 10
    else c as int - 'A' as int + 10
  }

  /** A lower-case hexadecimal digit, as `json.dumps` writes them. */
  function HexChar(d: nat): (c: char)
    requires d < 16
    ensures IsHexDigit(c) && HexValue(c) == d
  {
    if d < 10 then ('0' as int + d) as char else ('a' as int + d - 10) as char
  }

  /** The four hexadecimal digits of a `\uXXXX` escape. */
  function Hex4(n: nat): (s: string)
    requires n < 0x1_0000
    ensures |s| == 4 && forall i :: 0 <= i < 4 ==> IsHexDigit(s[i])
  {
    var low12 := n % 0x1000;
    var low8 := low12 % 0x100;
    [HexChar(n / 0x1000), HexChar(low12 / 0x100), HexChar(low8 / 0x10), HexChar(low8 % 0x10)]
  }

  /** The number four hexadecimal digits denote. */
  function Hex4Value(s: string): (n: nat)
    requires |s| == 4 && forall i :: 0 <= i < 4 ==> IsHexDigit(s[i])
    ensures n < 0x1_0000
  {
    HexValue(s[0]) * 0x1000 + HexValue(s[1]) * 0x100 + HexValue(s[2]) * 0x10 + HexValue(s[3])
  }

  /** The characters `json.dumps` writes as a backslash and one letter, and
      that letter. */
  const ShortEscape: map<char, char> := map[
    '"' := '"', '\\' := '\\', 0x08 as char := 'b', 0x0C as char := 'f',
    '\n' := 'n', '\r' := 'r', '\t' := 't']

  /** What `json.loads` reads a backslash and one letter as (`\u` aside). */
  const EscapedChar: map<char, char> := map[
    '"' := '"', '\\' := '\\', '/' := '/', 'b' := 0x08 as char, 'f' := 0x0C as char,
    'n' := '\n', 'r' := '\r', 't' := '\t']

  /** The UTF-16 high surrogate of a character above U+FFFF. */
  function HighSurrogate(c: char): (hi: nat)
    requires c as int >= 0x1_0000
    ensures 0xD800 <= hi < 0xDC00
  {
    0xD800 + (c as int - 0x1_0000) / 0x400
  }

  /** The UTF-16 low surrogate of a character above U+FFFF. */
  function LowSurrogate(c: char): (lo: nat)
    requires c as int >= 0x1_0000
    ensures 0xDC00 <= lo < 0xE000
  {
    0xDC00 + (c as int - 0x1_0000) % 0x400
  }

  /** The code point a high and a low surrogate stand for. */
  function FromSurrogates(hi: nat, lo: nat): (n: int)
    requires 0xD800 <= hi < 0xDC00 && 0xDC00 <= lo < 0xE000
    ensures 0x1_0000 <= n < 0x11_0000
  {
    0x1_0000 + (hi - 0xD800) * 0x400 + (lo - 0xDC00)
  }

  /** How `json.dumps` (with its default `ensure_ascii`) writes one character
      inside a string: `"`, `\` and the five control characters with short
      escapes as a backslash and a letter; other printable ASCII as itself;
      any other character below U+10000 as `\uXXXX`; and any character above
      as a UTF-16 surrogate pair of two such escapes. */
  function EscapeChar(c: char): (s: string)
    ensures |s| > 0 && s[0] != '"'
  {
    var n := c as int;
    if c in ShortEscape then ['\\', ShortEscape[c]]
    else if ' ' <= c <= '~' then [c]
    else if n < 0x1_0000 then "\\u" + Hex4(n)
    else "\\u" + (Hex4(HighSurrogate(c)) + ("\\u" + Hex4(LowSurrogate(c))))
  }

  /** The characters of `x`, each escaped by `EscapeChar`. */
  function Escape(x: string): string {
    if x == [] then [] else EscapeChar(x[0]) + Escape(x[1..])
  }

  function EncodeString(x: string): (s: string) {
    "\"" + (Escape(x) + "\"")
  }

  /** Reads the four digits after `\u`, and after a high surrogate the low
      surrogate escape that must follow it. A surrogate without its partner
      is refused: `json.loads` keeps it, but a string here cannot hold it. */
  function ParseUnicodeEscape(s: string): (r: Option<(char, string)>)
    ensures r.Some? ==> |r.value.1| <= |s| - 4
  {
    if |s| < 4 || !(forall i :: 0 <= i < 4 ==> IsHexDigit(s[i])) then None
    else
      var hi := Hex4Value(s[..4]);
      if hi < 0xD800 || 0xE000 <= hi then Some((hi as char, s[4..]))
      else if hi < 0xDC00 && |s| >= 10 && s[4] == '\\' && s[5] == 'u'
        && (forall i :: 6 <= i < 10 ==> IsHexDigit(s[i]))
      then
        var lo := Hex4Value(s[6..10]);
        if 0xDC00 <= lo < 0xE000 then
          Some((FromSurrogates(hi, lo) as char, s[10..]))
        else None
      else None
  }

  /** Reads one character of a string body, raw or escaped, as `json.loads`
      does in its default strict mode: a raw control character or a raw `"`
      is not a character of the body. */
  function ParseChar(s: string): (r: Option<(char, string)>)
    ensures r.Some? ==> |r.value.1| < |s|
  {
    if s == [] || s[0] == '"' || s[0] < ' ' then None
    else if s[0] != '\\' then Some((s[0], s[1..]))
    else ParseEscape(s[1..])
  }

  /** Reads what follows a backslash. */
  function ParseEscape(e: string): (r: Option<(char, string)>)
    ensures r.Some? ==> |r.value.1| < |e|
  {
    if e == [] then None
    else if e[0] == 'u' then ParseUnicodeEscape(e[1..])
    else if e[0] in EscapedChar then Some((EscapedChar[e[0]], e[1..]))
    else None
  }

  /** Reads characters up to and including the closing quote. */
  function ParseStringBody(s: string): (r: Option<(string, string)>)
    ensures r.Some? ==> |r.value.1| < |s|
    decreases |s|
  {
    if |s| > 0 && s[0] == '"' then Some(([], s[1..]))
    else
      var c :- ParseChar(s);
      var more :- ParseStringBody(c.1);
      Some(([c.0] + more.0, more.1))
  }

  function ParseString(s: string): (r: Option<(string, string)>)
    ensures r.Some? ==> |r.value.1| < |s|
  {
    if |s| > 0 && s[0] == '"' then ParseStringBody(s[1..]) else None
  }

  // ------------------------------------------------------- books and listings

  /** Consumes the fixed text `lit` at the start of `s`. */
  function ParseLit(lit: string, s: string): (r: Option<string>)
    ensures r.Some? ==> |r.value| == |s| - |lit|
  {
    if lit <= s then Some(s[|lit|..]) else None
  }

  const IdKey := "{\"id\": "
  const TitleKey := ", \"title\": "
  const AuthorKey := ", \"author\": "

  /** One book as `model_dump` then `json.dumps` lay it out. */
  function EncodeBook(b: Book): string {
    IdKey + (EncodeInt(b.id) + (TitleKey + (EncodeString(b.title) + (AuthorKey + (EncodeString(b.author) + "}")))))
  }

  function ParseBook(s: string): (r: Option<(Book, string)>)
    ensures r.Some? ==> |r.value.1| < |s|
  {
    var s1 :- ParseLit(IdKey, s);
    var id :- ParseInt(s1);
    var s2 :- ParseLit(TitleKey, id.1);
    var title :- ParseString(s2);
    var s3 :- ParseLit(AuthorKey, title.1);
    var author :- ParseString(s3);
    var s4 :- ParseLit("}", author.1);
    Some((Book(id.0, title.0, author.0), s4))
  }

  /** The books of a non-empty listing, separated by `", "`. */
  function EncodeItems(bs: seq<Book>): string {
    if |bs| == 0 then ""
    else if |bs| == 1 then EncodeBook(bs[0])
    else EncodeBook(bs[0]) + (", " + EncodeItems(bs[1..]))
  }

  function ParseItems(s: string): (r: Option<(seq<Book>, string)>)
    ensures r.Some? ==> |r.value.0| > 0
    decreases |s|
  {
    var first :- ParseBook(s);
    if ", " <= first.1 then
      var more :- ParseItems(first.1[2..]);
      Some(([first.0] + more.0, more.1))
    else Some(([first.0], first.1))
  }

  /** The text `json.dumps` makes of a listing. It is never empty, so the
      cache treats it as a value even when there are no books (`"[]"`). */
  function Encode(bs: seq<Book>): (s: string)
    ensures |s| >= 2 && s[0] == '[' && s[|s| - 1] == ']'
    ensures bs == [] <==> s == "[]"
  {
    "[" + EncodeItems(bs) + "]"
  }

  /** Reads a whole listing back. It accepts only text that `json.loads`
      reads as the same listing: strict strings and integers, the separators
      and key order the encoder writes. It answers `None` for any other text,
      including JSON that `json.loads` would accept with other spacing or key
      order, a lone surrogate escape, or a value that is not a listing. */
  function Decode(s: string): (r: Option<seq<Book>>) {
    var body :- ParseLit("[", s);
    if body == "]" then Some([])
    else
      var items :- ParseItems(body);
      if items.1 == "]" then Some(items.0) else None
  }

  // ------------------------------------------------------------ round trips

  lemma {:induction false} DigitRunOfDigits(d: string, rest: string)
    requires AllDigits(d)
    requires rest == [] || !IsDigit(rest[0])
    ensures DigitRunLength(d + rest) == |d|
  {
    if d != [] {
      assert (d + rest)[1..] == d[1..] + rest;
      DigitRunOfDigits(d[1..], rest);
    }
  }

  lemma {:induction false} DigitsValueOfDigits(n: nat)
    ensures DigitsValue(Digits(n)) == n
  {
    if n >= 10 {
      var s := Digits(n);
      assert s[..|s| - 1] == Digits(n / 10);
      DigitsValueOfDigits(n / 10);
    }
  }

  lemma NatRoundTrip(n: nat, rest: string)
    requires rest == [] || !IsDigit(rest[0])
    ensures ParseNat(Digits(n) + rest) == Some((n, rest))
  {
    var d := Digits(n);
    var s := d + rest;
    DigitRunOfDigits(d, rest);
    DigitsValueOfDigits(n);
    assert s[0] == d[0];
    assert s[..|d|] == d;
    assert s[|d|..] == rest;
  }

  lemma NegativeRoundTrip(t: string, n: nat, rest: string)
    requires ParseNat(t) == Some((n, rest))
    ensures ParseInt("-" + t) == Some((-(n as int), rest))
  {
    assert ("-" + t)[1..] == t;
  }

  lemma NonNegativeRoundTrip(t: string, n: nat, rest: string)
    requires ParseNat(t) == Some((n, rest))
    requires t[0] != '-'
    ensures ParseInt(t) == Some((n, rest))
  {
  }

  /** An integer reads back from its decimal text when the text after it
      does not continue the digit run. */
  lemma IntRoundTrip(n: int, rest: string)
    requires rest == [] || !IsDigit(rest[0])
    ensures ParseInt(EncodeInt(n) + rest) == Some((n, rest))
  {
    var m: nat := if n < 0 then -n else n;
    var t := Digits(m) + rest;
    NatRoundTrip(m, rest);
    if n < 0 {
      assert EncodeInt(n) == "-" + Digits(m);
      AppendRight("-", Digits(m), rest);
      NegativeRoundTrip(t, m, rest);
    } else {
      assert EncodeInt(n) == Digits(m);
      assert t[0] == Digits(m)[0];
      NonNegativeRoundTrip(t, m, rest);
    }
  }

  /** As in JSON, a number of several digits may not start with `0`. */
  lemma LeadingZeroRefused(s: string)
    requires |s| > 1 && s[0] == '0' && IsDigit(s[1])
    ensures ParseNat(s) == None
  {
    assert DigitRunLength(s) == 1 + DigitRunLength(s[1..]);
  }

  lemma Hex4RoundTrip(n: nat)
    requires n < 0x1_0000
    ensures Hex4Value(Hex4(n)) == n
  {
    var low12 := n % 0x1000;
    var low8 := low12 % 0x100;
    assert n == n / 0x1000 * 0x1000 + low12;
    assert low12 == low12 / 0x100 * 0x100 + low8;
    assert low8 == low8 / 0x10 * 0x10 + low8 % 0x10;
  }

  /** A character above U+FFFF splits into a high and a low surrogate that
      combine back into it. */
  lemma SurrogateSplit(c: char)
    requires c as int >= 0x1_0000
    ensures FromSurrogates(HighSurrogate(c), LowSurrogate(c)) == c as int
  {
    var m := c as int - 0x1_0000;
    assert m == m / 0x400 * 0x400 + m % 0x400;
  }

  /** A high and a low surrogate escape read back as the character they
      encode. */
  lemma SurrogateEscapeRoundTrip(hi: nat, lo: nat, rest: string)
    requires 0xD800 <= hi < 0xDC00 && 0xDC00 <= lo < 0xE000
    ensures ParseUnicodeEscape(Hex4(hi) + ("\\u" + (Hex4(lo) + rest)))
         == Some((FromSurrogates(hi, lo) as char, rest))
  {
    Hex4RoundTrip(hi);
    Hex4RoundTrip(lo);
    var t := Hex4(hi) + ("\\u" + (Hex4(lo) + rest));
    assert t[..4] == Hex4(hi);
    assert t[6..10] == Hex4(lo);
    assert t[10..] == rest;
  }

  lemma EscapeShort(c: char)
    requires c in ShortEscape
    ensures EscapeChar(c) == ['\\', ShortEscape[c]]
  {
  }

  lemma EscapePrintable(c: char)
    requires c !in ShortEscape && ' ' <= c <= '~'
    ensures EscapeChar(c) == [c]
  {
  }

  lemma EscapeBmp(c: char)
    requires c !in ShortEscape && !(' ' <= c <= '~') && c as int < 0x1_0000
    ensures EscapeChar(c) == "\\u" + Hex4(c as int)
  {
  }

  lemma EscapeAstral(c: char)
    requires c as int >= 0x1_0000
    ensures EscapeChar(c) == "\\u" + (Hex4(HighSurrogate(c)) + ("\\u" + Hex4(LowSurrogate(c))))
  {
    assert c !in ShortEscape by {
      assert forall k :: k in ShortEscape ==> k as int < 0x80;
    }
  }

  /** A backslash and `u` start a `\uXXXX` escape. */
  lemma UnicodeEscapeStep(t: string)
    ensures ParseChar("\\u" + t) == ParseUnicodeEscape(t)
  {
    assert ("\\u" + t)[1..] == "u" + t;
    assert ("u" + t)[1..] == t;
  }

  lemma ShortRoundTrip(c: char, rest: string)
    requires c in ShortEscape
    ensures ParseChar(['\\', ShortEscape[c]] + rest) == Some((c, rest))
  {
    var s := ['\\', ShortEscape[c]] + rest;
    assert EscapedChar[ShortEscape[c]] == c;
    assert s[1..][1..] == rest;
  }

  lemma PrintableRoundTrip(c: char, rest: string)
    requires c !in ShortEscape && ' ' <= c <= '~'
    ensures ParseChar([c] + rest) == Some((c, rest))
  {
    assert c != '"' && c != '\\';
    assert ([c] + rest)[1..] == rest;
  }

  lemma BmpRoundTrip(c: char, rest: string)
    requires c as int < 0x1_0000
    ensures ParseChar(("\\u" + Hex4(c as int)) + rest) == Some((c, rest))
  {
    var t := Hex4(c as int) + rest;
    Hex4RoundTrip(c as int);
    assert t[..4] == Hex4(c as int);
    assert t[4..] == rest;
    assert ParseUnicodeEscape(t) == Some((c, rest));
    UnicodeEscapeStep(t);
    AppendRight("\\u", Hex4(c as int), rest);
  }

  /** The two escapes of a surrogate pair read back as the character they
      encode. */
  lemma AstralRoundTrip(hi: nat, lo: nat, rest: string)
    requires 0xD800 <= hi < 0xDC00 && 0xDC00 <= lo < 0xE000
    ensures ParseChar(("\\u" + (Hex4(hi) + ("\\u" + Hex4(lo)))) + rest)
         == Some((FromSurrogates(hi, lo) as char, rest))
  {
    var t := Hex4(hi) + ("\\u" + (Hex4(lo) + rest));
    SurrogateEscapeRoundTrip(hi, lo, rest);
    UnicodeEscapeStep(t);
    AppendRight("\\u", Hex4(hi) + ("\\u" + Hex4(lo)), rest);
    AppendRight(Hex4(hi), "\\u" + Hex4(lo), rest);
    AppendRight("\\u", Hex4(lo), rest);
  }

  lemma AstralCharRoundTrip(c: char, rest: string)
    requires c as int >= 0x1_0000
    ensures ParseChar(EscapeChar(c) + rest) == Some((c, rest))
  {
    SurrogateSplit(c);
    AstralRoundTrip(HighSurrogate(c), LowSurrogate(c), rest);
    EscapeAstral(c);
  }

  /** Every character reads back from its escaped form, whatever follows it. */
  lemma CharRoundTrip(c: char, rest: string)
    ensures ParseChar(EscapeChar(c) + rest) == Some((c, rest))
  {
    if c in ShortEscape {
      EscapeShort(c);
      ShortRoundTrip(c, rest);
    } else if ' ' <= c <= '~' {
      EscapePrintable(c);
      PrintableRoundTrip(c, rest);
    } else if c as int < 0x1_0000 {
      EscapeBmp(c);
      BmpRoundTrip(c, rest);
    } else {
      AstralCharRoundTrip(c, rest);
    }
  }

  /** As in `json.loads` in its default strict mode, a control character
      may appear in a string only escaped. */
  lemma RawControlRefused(c: char, rest: string)
    requires c < ' '
    ensures ParseChar([c] + rest) == None
  {
  }

  /** A string body is a character followed by the rest of the body. */
  lemma ParseStringBodyStep(s: string, c: char, t: string, x: string, rest: string)
    requires ParseChar(s) == Some((c, t))
    requires ParseStringBody(t) == Some((x, rest))
    ensures ParseStringBody(s) == Some(([c] + x, rest))
  {
  }

  lemma EscapeAppend(x: string, rest: string)
    requires x != []
    ensures Escape(x) + rest == EscapeChar(x[0]) + (Escape(x[1..]) + rest)
  {
    AppendRight(EscapeChar(x[0]), Escape(x[1..]), rest);
  }

  lemma {:induction false} StringBodyRoundTrip(x: string, rest: string)
    ensures ParseStringBody(Escape(x) + ("\"" + rest)) == Some((x, rest))
  {
    if x == [] {
      assert Escape(x) + ("\"" + rest) == "\"" + rest;
    } else {
      var tail := Escape(x[1..]) + ("\"" + rest);
      EscapeAppend(x, "\"" + rest);
      CharRoundTrip(x[0], tail);
      StringBodyRoundTrip(x[1..], rest);
      ParseStringBodyStep(EscapeChar(x[0]) + tail, x[0], tail, x[1..], rest);
      assert [x[0]] + x[1..] == x;
    }
  }

  lemma StringRoundTrip(x: string, rest: string)
    ensures ParseString(EncodeString(x) + rest) == Some((x, rest))
  {
    var t := Escape(x) + ("\"" + rest);
    StringBodyRoundTrip(x, rest);
    AppendRight("\"", Escape(x) + "\"", rest);
    AppendRight(Escape(x), "\"", rest);
    assert ("\"" + t)[1..] == t;
  }

  lemma LitRoundTrip(lit: string, rest: string)
    ensures ParseLit(lit, lit + rest) == Some(rest)
  {
  }

  /** `ParseBook` succeeds when each of its steps does. */
  lemma ParseBookSteps(s: string, b: Book, r1: string, r2: string, r3: string,
                       r4: string, r5: string, r6: string, rest: string)
    requires ParseLit(IdKey, s) == Some(r1)
    requires ParseInt(r1) == Some((b.id, r2))
    requires ParseLit(TitleKey, r2) == Some(r3)
    requires ParseString(r3) == Some((b.title, r4))
    requires ParseLit(AuthorKey, r4) == Some(r5)
    requires ParseString(r5) == Some((b.author, r6))
    requires ParseLit("}", r6) == Some(rest)
    ensures ParseBook(s) == Some((b, rest))
  {
  }

  lemma BookRoundTrip(b: Book, rest: string)
    ensures ParseBook(EncodeBook(b) + rest) == Some((b, rest))
  {
    var t6 := "}";
    var t5 := EncodeString(b.author) + t6;
    var t4 := AuthorKey + t5;
    var t3 := EncodeString(b.title) + t4;
    var t2 := TitleKey + t3;
    var t1 := EncodeInt(b.id) + t2;
    var r6 := t6 + rest;
    var r5 := EncodeString(b.author) + r6;
    var r4 := AuthorKey + r5;
    var r3 := EncodeString(b.title) + r4;
    var r2 := TitleKey + r3;
    var r1 := EncodeInt(b.id) + r2;
    AppendRight(IdKey, t1, rest);
    AppendRight(EncodeInt(b.id), t2, rest);
    AppendRight(TitleKey, t3, rest);
    AppendRight(EncodeString(b.title), t4, rest);
    AppendRight(AuthorKey, t5, rest);
    AppendRight(EncodeString(b.author), t6, rest);
    LitRoundTrip(IdKey, r1);
    IntRoundTrip(b.id, r2);
    LitRoundTrip(TitleKey, r3);
    StringRoundTrip(b.title, r4);
    LitRoundTrip(AuthorKey, r5);
    StringRoundTrip(b.author, r6);
    LitRoundTrip("}", rest);
    ParseBookSteps(EncodeBook(b) + rest, b, r1, r2, r3, r4, r5, r6, rest);
  }

  lemma ParseItemsLast(s: string, b: Book, rest: string)
    requires ParseBook(s) == Some((b, rest))
    requires !(", " <= rest)
    ensures ParseItems(s) == Some(([b], rest))
  {
  }

  lemma ParseItemsMore(s: string, b: Book, tail: string, bs: seq<Book>, rest: string)
    requires ParseBook(s) == Some((b, ", " + tail))
    requires ParseItems(tail) == Some((bs, rest))
    ensures ParseItems(s) == Some(([b] + bs, rest))
  {
    assert (", " + tail)[2..] == tail;
  }

  /** One more book in front of a listing that reads back. */
  lemma ItemsStep(b: Book, tail: string, bs: seq<Book>, rest: string)
    requires ParseItems(tail) == Some((bs, rest))
    ensures ParseItems(EncodeBook(b) + (", " + tail)) == Some(([b] + bs, rest))
  {
    BookRoundTrip(b, ", " + tail);
    ParseItemsMore(EncodeBook(b) + (", " + tail), b, tail, bs, rest);
  }

  lemma ItemsLast(b: Book, rest: string)
    requires !(", " <= rest)
    ensures ParseItems(EncodeBook(b) + rest) == Some(([b], rest))
  {
    BookRoundTrip(b, rest);
    ParseItemsLast(EncodeBook(b) + rest, b, rest);
  }

  lemma {:induction false} ItemsRoundTrip(bs: seq<Book>, rest: string)
    requires |bs| > 0
    requires !(", " <= rest)
    ensures ParseItems(EncodeItems(bs) + rest) == Some((bs, rest))
  {
    if |bs| == 1 {
      ItemsLast(bs[0], rest);
      assert EncodeItems(bs) == EncodeBook(bs[0]);
      assert [bs[0]] == bs;
    } else {
      var tail := EncodeItems(bs[1..]) + rest;
      AppendRight(EncodeBook(bs[0]), ", " + EncodeItems(bs[1..]), rest);
      AppendRight(", ", EncodeItems(bs[1..]), rest);
      ItemsRoundTrip(bs[1..], rest);
      ItemsStep(bs[0], tail, bs[1..], rest);
      assert [bs[0]] + bs[1..] == bs;
    }
  }

  /** Reading back what was written yields the same listing. */
  lemma RoundTrip(bs: seq<Book>)
    ensures Decode(Encode(bs)) == Some(bs)
  {
    LitRoundTrip("[", EncodeItems(bs) + "]");
    assert Encode(bs) == "[" + (EncodeItems(bs) + "]");
    if bs != [] {
      ItemsRoundTrip(bs, "]");
      assert EncodeItems(bs) + "]" != "]" by {
        assert EncodeItems(bs)[0] == '{';
      }
    }
  }

}
