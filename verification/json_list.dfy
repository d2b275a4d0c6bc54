/**
 The one piece of JSON the agent interprets: the `subnets` setting, a list of
 strings written with `json.dumps` (default separators, `ensure_ascii=True`)
 and read back with `json.loads`.  The decoder accepts JSON arrays of strings
 with the whitespace JSON allows between tokens; every other document is
 `None` here.
 */
module JsonList {
  import opened Wrappers

  const HexDigits: string := "0123456789abcdef"

  /** Four lower-case hex digits, the form `json.dumps` uses in `\uXXXX`. */
  function Hex4(n: nat): (r: string)
    requires n < 0x10000
    ensures |r| == 4
  {
    [HexDigits[n / 16 / 16 / 16], HexDigits[n / 16 / 16 % 16], HexDigits[n / 16 % 16], HexDigits[n % 16]]
  }

  /** The value of one hex digit, either case. */
  function HexValue(c: char): (r: Option<nat>)
    ensures r.Some? ==> r.value < 16
  {
    if '0' <= c <= '9' then Some(c as int - '0' as int)
    else if 'a' <= c <= 'f' then Some(c as int - 'a' as int + 10)
    else if 'A' <= c <= 'F' then Some(c as int - 'A' as int + 10)
    else None
  }

  /** The value of the four hex digits `s[0..4]`. */
  function ParseHex4(s: string): (r: Option<nat>)
    requires |s| >= 4
    ensures r.Some? ==> r.value < 0x10000
  {
    match (HexValue(s[0]), HexValue(s[1]), HexValue(s[2]), HexValue(s[3]))
    case (Some(a), Some(b), Some(c), Some(d)) => Some(((a * 16 + b) * 16 + c) * 16 + d)
    case _ => None
  }

  lemma HexValueOfDigit(d: nat)
    requires d < 16
    ensures HexValue(HexDigits[d]) == Some(d)
  {
  }

  lemma Hex4RoundTrip(n: nat)
    requires n < 0x10000
    ensures ParseHex4(Hex4(n)) == Some(n)
  {
    var q1 := n / 16;
    var q2 := q1 / 16;
    var q3 := q2 / 16;
    HexValueOfDigit(q3);
    HexValueOfDigit(q2 % 16);
    HexValueOfDigit(q1 % 16);
    HexValueOfDigit(n % 16);
    assert q3 * 16 + q2 % 16 == q2;
    assert q2 * 16 + q1 % 16 == q1;
    assert q1 * 16 + n % 16 == n;
  }

  function UEscape(n: nat): (r: string)
    requires n < 0x10000
    ensures |r| == 6
  {
    "\\u" + Hex4(n)
  }

  predicate IsPrintableAscii(c: char) {
    ' ' <= c <= '~'
  }

  /**
   The escaping `json.dumps` applies to one character of a string: short
   escapes for quote, backslash and five control characters, the character
   itself for the rest of printable ASCII, `\uXXXX` for other BMP characters
   and a surrogate pair for characters above U+FFFF.
   */
  function EscapeChar(c: char): (r: string)
    ensures |r| > 0
  {
    if c == '"' then "\\\""
    else if c == '\\' then "\\\\"
    else if c == '\n' then "\\n"
    else if c == '\r' then "\\r"
    else if c == '\t' then "\\t"
    else if c as int == 8 then "\\b"
    else if c as int == 12 then "\\f"
    else if IsPrintableAscii(c) then [c]
    else if c as int < 0x10000 then UEscape(c as int)
    else
      var n := c as int - 0x10000;
      UEscape(0xD800 + n / 1024) + UEscape(0xDC00 + n % 1024)
  }

  function EscapeBody(s: string): string
    decreases |s|
  {
    if |s| == 0 then "" else EscapeChar(s[0]) + EscapeBody(s[1..])
  }

  function Quote(s: string): string {
    "\"" + EscapeBody(s) + "\""
  }

  /** The items of a non-empty list joined with `", "`. */
  function EncodeItems(xs: seq<string>): (r: string)
    requires |xs| > 0
    ensures |r| > 0 && r[0] == '"'
    decreases |xs|
  {
    if |xs| == 1 then Quote(xs[0]) else Quote(xs[0]) + ", " + EncodeItems(xs[1..])
  }

  /** `json.dumps(xs)` for a list of strings. */
  function EncodeList(xs: seq<string>): string {
    if |xs| == 0 then "[]" else "[" + EncodeItems(xs) + "]"
  }

  predicate IsJsonSpace(c: char) {
    c == ' ' || c == '\t' || c == '\n' || c == '\r'
  }

  function SkipSpace(s: string): (r: string)
    ensures |r| <= |s|
    ensures |r| == 0 || !IsJsonSpace(r[0])
    decreases |s|
  {
    if |s| > 0 && IsJsonSpace(s[0]) then SkipSpace(s[1..]) else s
  }

  /**
   Reads one escape sequence; `s` starts just after the backslash.  A lone
   surrogate decodes in Python to a string Dafny cannot hold, so it is `None`.
   */
  function ParseEscape(s: string): (r: Option<(char, string)>)
    ensures r.Some? ==> |r.value.1| < |s|
  {
    if |s| == 0 then None
    else if s[0] == '"' then Some(('"', s[1..]))
    else if s[0] == '\\' then Some(('\\', s[1..]))
    else if s[0] == '/' then Some(('/', s[1..]))
    else if s[0] == 'b' then Some((8 as char, s[1..]))
    else if s[0] == 'f' then Some((12 as char, s[1..]))
    else if s[0] == 'n' then Some(('\n', s[1..]))
    else if s[0] == 'r' then Some(('\r', s[1..]))
    else if s[0] == 't' then Some(('\t', s[1..]))
    else if s[0] == 'u' && |s| >= 5 then
      match ParseHex4(s[1..5])
      case None => None
      case Some(h) =>
        if 0xD800 <= h <= 0xDBFF then
          if |s| >= 11 && s[5] == '\\' && s[6] == 'u' then
            match ParseHex4(s[7..11])
            case Some(l) =>
              if 0xDC00 <= l <= 0xDFFF then
                Some(((0x10000 + (h - 0xD800) * 1024 + (l - 0xDC00)) as char, s[11..]))
              else None
            case None => None
          else None
        else if 0xDC00 <= h <= 0xDFFF then None
        else Some((h as char, s[5..]))
    else None
  }

  function Prepend(c: char, r: Option<(string, string)>): Option<(string, string)> {
    match r
    case None => None
    case Some((t, rest)) => Some(([c] + t, rest))
  }

  /**
   Reads the characters of a string literal up to its closing quote; `s`
   starts just after the opening quote.  Returns the decoded text and what
   follows the closing quote.  Raw control characters are rejected, as in
   `json.loads`'s strict mode.
   */
  function ParseChars(s: string): (r: Option<(string, string)>)
    ensures r.Some? ==> |r.value.1| < |s|
    decreases |s|
  {
    if |s| == 0 then None
    else if s[0] == '"' then Some(("", s[1..]))
    else if s[0] == '\\' then
      match ParseEscape(s[1..])
      case None => None
      case Some((c, rest)) => Prepend(c, ParseChars(rest))
    else if s[0] < ' ' then None
    else Prepend(s[0], ParseChars(s[1..]))
  }

  function ConsItem(x: string, r: Option<(seq<string>, string)>): Option<(seq<string>, string)> {
    match r
    case None => None
    case Some((ys, rest)) => Some(([x] + ys, rest))
  }

  /**
   Reads `value (ws "," ws value)* ws "]"` where every value is a string;
   returns the strings and what follows the closing bracket.
   */
  function ParseItems(s: string): (r: Option<(seq<string>, string)>)
    ensures r.Some? ==> |r.value.1| < |s|
    decreases |s|
  {
    if |s| == 0 || s[0] != '"' then None
    else
      match ParseChars(s[1..])
      case None => None
      case Some((x, r1)) =>
        var r2 := SkipSpace(r1);
        if |r2| == 0 then None
        else if r2[0] == ']' then Some(([x], r2[1..]))
        else if r2[0] == ',' then
          ConsItem(x, ParseItems(SkipSpace(r2[1..])))
        else None
  }

  /** `json.loads(s)` when the document is an array of strings; `None` otherwise. */
  function DecodeList(s: string): Option<seq<string>> {
    var s1 := SkipSpace(s);
    if |s1| == 0 || s1[0] != '[' then None
    else
      var s2 := SkipSpace(s1[1..]);
      if |s2| > 0 && s2[0] == ']' then
        if SkipSpace(s2[1..]) == "" then Some([]) else None
      else
        match ParseItems(s2)
        case Some((xs, rest)) => if SkipSpace(rest) == "" then Some(xs) else None
        case None => None
  }

  lemma SkipSpaceNoop(s: string)
    requires |s| == 0 || !IsJsonSpace(s[0])
    ensures SkipSpace(s) == s
  {
  }

  lemma ShortEscapeDecodes(c: char, tail: string)
    requires c == '"' || c == '\\' || c == '\n' || c == '\r' || c == '\t' || c as int == 8 || c as int == 12
    ensures ParseChars(EscapeChar(c) + tail) == Prepend(c, ParseChars(tail))
  {
    var s := EscapeChar(c) + tail;
    assert |EscapeChar(c)| == 2;
    assert s[0] == '\\';
    assert s[1..] == [EscapeChar(c)[1]] + tail;
    assert s[1..][1..] == tail;
  }

  lemma BmpEscapeDecodes(c: char, tail: string)
    requires !IsPrintableAscii(c) && c as int < 0x10000
    ensures ParseChars(UEscape(c as int) + tail) == Prepend(c, ParseChars(tail))
  {
    var s := UEscape(c as int) + tail;
    UEscapeLayout(c as int, tail);
    Hex4RoundTrip(c as int);
    BmpEscapeParses(s[1..], c);
  }

  /** Where the parts of `\\u HHHH` followed by `tail` sit. */
  lemma UEscapeLayout(n: nat, tail: string)
    requires n < 0x10000
    ensures var s := UEscape(n) + tail;
      && |s| >= 6 && s[0] == '\\' && s[1..][0] == 'u' && s[1..][1..5] == Hex4(n) && s[1..][5..] == tail
  {
    var s := UEscape(n) + tail;
    assert s[1..] == ['u'] + Hex4(n) + tail;
    assert s[1..][1..5] == Hex4(n);
    assert s[1..][5..] == tail;
  }

  /** `uHHHH` naming a character outside the surrogate range decodes to it. */
  lemma BmpEscapeParses(u: string, c: char)
    requires |u| >= 5 && u[0] == 'u' && ParseHex4(u[1..5]) == Some(c as int)
    ensures ParseEscape(u) == Some((c, u[5..]))
  {
  }

  /** The UTF-16 surrogate pair arithmetic `json.dumps` uses above U+FFFF, and its inverse. */
  lemma SurrogatePair(n: int)
    requires 0 <= n < 0x100000
    ensures 0xD800 <= 0xD800 + n / 1024 <= 0xDBFF
    ensures 0xDC00 <= 0xDC00 + n % 1024 <= 0xDFFF
    ensures 0x10000 + ((0xD800 + n / 1024) - 0xD800) * 1024 + ((0xDC00 + n % 1024) - 0xDC00) == 0x10000 + n
  {
  }

  /** `\\uHHHH\\uLLLL` with a high and a low surrogate decodes to the character they encode. */
  lemma SurrogateEscapeParses(u: string, hi: nat, lo: nat)
    requires |u| >= 11 && u[0] == 'u' && u[5] == '\\' && u[6] == 'u'
    requires ParseHex4(u[1..5]) == Some(hi) && 0xD800 <= hi <= 0xDBFF
    requires ParseHex4(u[7..11]) == Some(lo) && 0xDC00 <= lo <= 0xDFFF
    ensures ParseEscape(u) == Some(((0x10000 + (hi - 0xD800) * 1024 + (lo - 0xDC00)) as char, u[11..]))
  {
  }

  lemma AstralEscapeParses(c: char, tail: string)
    requires c as int >= 0x10000
    ensures var n := c as int - 0x10000;
            ParseEscape(['u'] + Hex4(0xD800 + n / 1024) + ['\\', 'u'] + Hex4(0xDC00 + n % 1024) + tail)
            == Some((c, tail))
  {
    var n := c as int - 0x10000;
    SurrogatePair(n);
    var hi := 0xD800 + n / 1024;
    var lo := 0xDC00 + n % 1024;
    Hex4RoundTrip(hi);
    Hex4RoundTrip(lo);
    var u := ['u'] + Hex4(hi) + ['\\', 'u'] + Hex4(lo) + tail;
    PairLayout(Hex4(hi), Hex4(lo), tail);
    SurrogateEscapeParses(u, hi, lo);
  }

  /** Where the parts of `u HHHH \\ u LLLL` sit. */
  lemma PairLayout(h4: string, l4: string, tail: string)
    requires |h4| == 4 && |l4| == 4
    ensures var u := ['u'] + h4 + ['\\', 'u'] + l4 + tail;
      && |u| >= 11 && u[0] == 'u' && u[1..5] == h4 && u[5] == '\\' && u[6] == 'u'
      && u[7..11] == l4 && u[11..] == tail
  {
    var u := ['u'] + h4 + ['\\', 'u'] + l4 + tail;
    assert u[1..5] == h4;
    assert u[7..11] == l4;
    assert u[11..] == tail;
  }

  lemma AstralEscapeDecodes(c: char, tail: string)
    requires c as int >= 0x10000
    ensures var n := c as int - 0x10000;
            ParseChars(UEscape(0xD800 + n / 1024) + UEscape(0xDC00 + n % 1024) + tail)
            == Prepend(c, ParseChars(tail))
  {
    var n := c as int - 0x10000;
    SurrogatePair(n);
    var hi := 0xD800 + n / 1024;
    var lo := 0xDC00 + n % 1024;
    var s := UEscape(hi) + UEscape(lo) + tail;
    assert s[1..] == ['u'] + Hex4(hi) + ['\\', 'u'] + Hex4(lo) + tail;
    AstralEscapeParses(c, tail);
    assert s[0] == '\\';
  }

  /** Decoding the escape of `c` yields `c` and leaves the rest of the input. */
  lemma ParseEscapedChar(c: char, tail: string)
    ensures ParseChars(EscapeChar(c) + tail) == Prepend(c, ParseChars(tail))
  {
    if c == '"' || c == '\\' || c == '\n' || c == '\r' || c == '\t' || c as int == 8 || c as int == 12 {
      ShortEscapeDecodes(c, tail);
    } else if IsPrintableAscii(c) {
      var s := EscapeChar(c) + tail;
      assert s[0] == c && s[1..] == tail;
    } else if c as int < 0x10000 {
      BmpEscapeDecodes(c, tail);
    } else {
      AstralEscapeDecodes(c, tail);
    }
  }

  /** A quoted string body followed by the closing quote decodes to the original text. */
  lemma {:induction false} ParseQuotedBody(x: string, rest: string)
    ensures ParseChars(EscapeBody(x) + "\"" + rest) == Some((x, rest))
    decreases |x|
  {
    if |x| == 0 {
      assert EscapeBody(x) + "\"" + rest == "\"" + rest;
    } else {
      var tail := EscapeBody(x[1..]) + "\"" + rest;
      assert EscapeBody(x) + "\"" + rest == EscapeChar(x[0]) + tail;
      ParseEscapedChar(x[0], tail);
      ParseQuotedBody(x[1..], rest);
      assert [x[0]] + x[1..] == x;
    }
  }

  /** A quoted item decodes to its text and leaves what follows the closing quote. */
  lemma QuotedItem(x: string, tail: string)
    ensures var s := Quote(x) + tail;
            |s| > 0 && s[0] == '"' && ParseChars(s[1..]) == Some((x, tail))
  {
    var s := Quote(x) + tail;
    assert s == ['"'] + (EscapeBody(x) + "\"" + tail);
    assert s[1..] == EscapeBody(x) + "\"" + tail;
    ParseQuotedBody(x, tail);
  }

  /** The last item of a list: its string, then the closing bracket. */
  lemma ParseLastItem(x: string, rest: string)
    ensures ParseItems(Quote(x) + ("]" + rest)) == Some(([x], rest))
  {
    var tail := "]" + rest;
    QuotedItem(x, tail);
    SkipSpaceNoop(tail);
    assert tail[1..] == rest;
  }

  /** After a string item, a comma and whitespace lead on to the next item. */
  lemma ParseAfterComma(s: string, x: string, r1: string, next: string)
    requires |s| > 0 && s[0] == '"' && ParseChars(s[1..]) == Some((x, r1))
    requires |r1| > 0 && r1[0] == ',' && SkipSpace(r1[1..]) == next
    ensures ParseItems(s) == ConsItem(x, ParseItems(next))
  {
    SkipSpaceNoop(r1);
  }

  /** An item followed by `", "` and further items. */
  lemma ParseInnerItem(x: string, next: string)
    requires |next| > 0 && next[0] == '"'
    ensures ParseItems(Quote(x) + (", " + next)) == ConsItem(x, ParseItems(next))
  {
    CommaSpace(next);
    QuotedItem(x, ", " + next);
    ParseAfterComma(Quote(x) + (", " + next), x, ", " + next, next);
  }

  /** The separator `", "` that `json.dumps` writes is skipped up to the next item. */
  lemma CommaSpace(next: string)
    requires |next| > 0 && next[0] == '"'
    ensures var tail := ", " + next; |tail| > 0 && tail[0] == ',' && SkipSpace(tail[1..]) == next
  {
    var tail := ", " + next;
    assert tail[1..] == " " + next;
    SkipSpaceNoop(next);
    assert SkipSpace(" " + next) == next;
  }

  lemma {:induction false} ParseEncodedItems(xs: seq<string>, rest: string)
    requires |xs| > 0
    ensures ParseItems(EncodeItems(xs) + "]" + rest) == Some((xs, rest))
    decreases |xs|
  {
    EncodedItemsLayout(xs, rest);
    if |xs| == 1 {
      ParseLastItem(xs[0], rest);
      assert [xs[0]] == xs;
    } else {
      var next := EncodeItems(xs[1..]) + "]" + rest;
      ParseInnerItem(xs[0], next);
      ParseEncodedItems(xs[1..], rest);
      assert [xs[0]] + xs[1..] == xs;
    }
  }

  /** An encoded list body splits into its first quoted item and what follows it. */
  lemma EncodedItemsLayout(xs: seq<string>, rest: string)
    requires |xs| > 0
    ensures |xs| == 1 ==> EncodeItems(xs) + "]" + rest == Quote(xs[0]) + ("]" + rest)
    ensures |xs| > 1 ==>
      var next := EncodeItems(xs[1..]) + "]" + rest;
      && EncodeItems(xs) + "]" + rest == Quote(xs[0]) + (", " + next)
      && |next| > 0 && next[0] == '"'
  {
    var q := Quote(xs[0]);
    if |xs| == 1 {
      assert EncodeItems(xs) == q;
      Regroup3(q, "]", rest);
    } else {
      var e := EncodeItems(xs[1..]);
      assert EncodeItems(xs) == q + ", " + e;
      Regroup5(q, ", ", e, "]", rest);
    }
  }

  lemma Regroup3(a: string, b: string, c: string)
    ensures a + b + c == a + (b + c)
  {
  }

  lemma Regroup5(a: string, b: string, c: string, d: string, e: string)
    ensures a + b + c + d + e == a + (b + (c + d + e))
  {
  }

  /** `json.loads(json.dumps(xs)) == xs` for every list of strings. */
  lemma ListRoundTrip(xs: seq<string>)
    ensures DecodeList(EncodeList(xs)) == Some(xs)
  {
    if |xs| == 0 {
      EmptyRoundTrip();
    } else {
      var s := EncodeList(xs);
      var body := EncodeItems(xs) + "]" + "";
      assert s == "[" + body;
      BracketLayout(body);
      ParseEncodedItems(xs, "");
    }
  }

  lemma EmptyRoundTrip()
    ensures DecodeList("[]") == Some([])
  {
    var s := "[]";
    SkipSpaceNoop(s);
    assert s[1..] == "]";
    SkipSpaceNoop(s[1..]);
    assert "]"[1..] == "";
  }

  /** After `[`, a body starting with a quote is read as items directly. */
  lemma BracketLayout(body: string)
    requires |body| > 0 && body[0] == '"'
    ensures var s := "[" + body; SkipSpace(s) == s && s[1..] == body && SkipSpace(body) == body
  {
    var s := "[" + body;
    SkipSpaceNoop(s);
    assert s[1..] == body;
    SkipSpaceNoop(body);
  }
}
