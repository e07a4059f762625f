/** JsonHelper.EscapeForJson: the text serialised as a JSON string literal
    (the escapes section 7 of RFC 8259 requires, plus U+0085, U+2028 and U+2029) with every leading and
    every trailing quote character then trimmed away. */
module JsonHelper {
  import opened Wrappers
  import opened Text

  /** Lower-case hexadecimal digit of a value below 16. */
  function HexDigit(n: nat): (c: char)
    requires n < 16
    ensures HexValue(c) == Some(n)
  {
    if n < 10 then ('0' as int + n) as char else ('a' as int + n - 10) as char
  }

  /** The value of one hexadecimal digit, either case. */
  function HexValue(c: char): (r: Option<nat>)
    ensures r.Some? ==> r.value < 16
  {
    if '0' <= c <= '9' then Some(c as int - '0' as int)
    else if 'a' <= c <= 'f' then Some(c as int - 'a' as int + 10)
    else if 'A' <= c <= 'F' then Some(c as int - 'A' as int + 10)
    else None
  }

  /** The value of four hexadecimal digits. */
  function HexQuad(h: string): (r: Option<nat>)
    requires |h| == 4
    ensures r.Some? ==> r.value < 0x10000
  {
    match (HexValue(h[0]), HexValue(h[1]), HexValue(h[2]), HexValue(h[3]))
    case (Some(a), Some(b), Some(c), Some(d)) => Some(((a * 16 + b) * 16 + c) * 16 + d)
    case _ => None
  }

  predicate IsControl(c: char) { (c as int) < 0x20 }

  /** Next line, line separator and paragraph separator, which the serialiser
      escapes as well although JSON does not require it. */
  predicate IsLineBreakOutsideAscii(c: char) {
    c as int == 0x85 || c as int == 0x2028 || c as int == 0x2029
  }

  /** A character the serialiser escapes inside a string. */
  predicate MustEscape(c: char) { c == '"' || c == '\\' || IsControl(c) || IsLineBreakOutsideAscii(c) }

  /** The escape of one character: two-character forms for quote, backslash,
      backspace, tab, line feed, form feed and carriage return, \u00xx for the
      other control characters, \u0085, \u2028 and \u2029 for the three line
      breaks beyond ASCII, the character itself otherwise. */
  function EscapeChar(c: char): (e: string)
    ensures 1 <= |e| <= 6
    ensures !MustEscape(c) <==> e == [c]
    ensures MustEscape(c) ==> e[0] == '\\'
    ensures e[|e| - 1] == '"' <==> c == '"'
  {
    if c == '"' then "\\\""
    else if c == '\\' then "\\\\"
    else if c as int == 0x08 then "\\b"
    else if c == '\t' then "\\t"
    else if c == '\n' then "\\n"
    else if c as int == 0x0C then "\\f"
    else if c == '\r' then "\\r"
    else if IsControl(c) then "\\u00" + [HexDigit(c as int / 16), HexDigit(c as int % 16)]
    else if c as int == 0x85 then "\\u0085"
    else if c as int == 0x2028 then "\\u2028"
    else if c as int == 0x2029 then "\\u2029"
    else [c]
  }

  /** The body of the JSON string literal for s, without the enclosing quotes. */
  function EscapeBody(s: string): string
    decreases |s|
  {
    if s == [] then [] else EscapeChar(s[0]) + EscapeBody(s[1..])
  }

  /** JsonConvert.ToString(s): a quoted JSON string literal. */
  function JsonString(s: string): string {
    "\"" + EscapeBody(s) + "\""
  }

  /** JsonHelper.EscapeForJson.  Empty input is returned unchanged; otherwise
      the literal with all leading and trailing quotes trimmed, so that the
      result never begins or ends with a quote. */
  function EscapeForJson(s: string): (r: string)
    ensures s == [] ==> r == s
    ensures r == [] || (r[0] != '"' && r[|r| - 1] != '"')
  {
    if s == [] then s else TrimBy(JsonString(s), IsQuote)
  }

  // ---------------------------------------------------------------------
  // Decoding: the inverse of the escaping, as a JSON parser reads a string body.

  /** The character denoted by the letter after a backslash, if any. */
  function ShortEscape(d: char): Option<char> {
    if d == '"' then Some('"')
    else if d == '\\' then Some('\\')
    else if d == '/' then Some('/')
    else if d == 'b' then Some(8 as char)
    else if d == 't' then Some('\t')
    else if d == 'n' then Some('\n')
    else if d == 'f' then Some(12 as char)
    else if d == 'r' then Some('\r')
    else None
  }

  function Prefix(a: string, r: Option<string>): Option<string> {
    match r
    case None => None
    case Some(v) => Some(a + v)
  }

  /** Decodes the body of a JSON string; None when it is not a valid body
      (a raw quote or control character, or a malformed or dangling escape).
      Escapes naming a UTF-16 surrogate are rejected. */
  function Unescape(e: string): Option<string>
    decreases |e|
  {
    if e == [] then Some([])
    else if e[0] == '\\' then
      if |e| < 2 then None
      else if e[1] == 'u' then
        if |e| < 6 then None
        else match HexQuad(e[2..6])
          case None => None
          case Some(n) =>
            if 0xD800 <= n < 0xE000 then None else Prefix([n as char], Unescape(e[6..]))
      else match ShortEscape(e[1])
        case None => None
        case Some(c) => Prefix([c], Unescape(e[2..]))
    else if e[0] == '"' || IsControl(e[0]) then None
    else Prefix([e[0]], Unescape(e[1..]))
  }

  lemma UnescapeEscapeChar(c: char, rest: string)
    ensures Unescape(EscapeChar(c) + rest) == Prefix([c], Unescape(rest))
  {
    var e := EscapeChar(c);
    if !MustEscape(c) {
      UnescapePlain(c, rest);
    } else if c == '"' || c == '\\' || c as int == 0x08 || c == '\t' || c == '\n' || c as int == 0x0C || c == '\r' {
      assert |e| == 2 && e == ['\\', e[1]];
      UnescapeShort(e[1], c, rest);
    } else if IsControl(c) {
      var hi, lo := c as int / 16, c as int % 16;
      assert e == "\\u" + ['0', '0', HexDigit(hi), HexDigit(lo)];
      UnescapeUnicode(['0', '0', HexDigit(hi), HexDigit(lo)], c, rest);
    } else {
      assert |e| == 6 && e == "\\u" + e[2..];
      UnescapeUnicode(e[2..], c, rest);
    }
  }

  lemma UnescapePlain(c: char, rest: string)
    requires c != '\\' && c != '"' && !IsControl(c)
    ensures Unescape([c] + rest) == Prefix([c], Unescape(rest))
  {
    assert ([c] + rest)[1..] == rest;
  }

  lemma UnescapeShort(d: char, c: char, rest: string)
    requires d != 'u' && ShortEscape(d) == Some(c)
    ensures Unescape(['\\', d] + rest) == Prefix([c], Unescape(rest))
  {
    assert (['\\', d] + rest)[2..] == rest;
  }

  lemma UnescapeUnicode(h: string, c: char, rest: string)
    requires |h| == 4 && HexQuad(h) == Some(c as int)
    ensures Unescape("\\u" + h + rest) == Prefix([c], Unescape(rest))
  {
    var e := "\\u" + h + rest;
    assert e[2..6] == h && e[6..] == rest;
  }

  /** Decoding an escaped text followed by more input yields the text followed
      by the decoding of the rest. */
  lemma {:induction false} UnescapeAfterEscape(a: string, t: string)
    ensures Unescape(EscapeBody(a) + t) == Prefix(a, Unescape(t))
    decreases |a|
  {
    if a != [] {
      var x, y := EscapeChar(a[0]), EscapeBody(a[1..]);
      assert EscapeBody(a) + t == x + (y + t) by {
        assert EscapeBody(a) == x + y;
      }
      UnescapeEscapeChar(a[0], y + t);
      UnescapeAfterEscape(a[1..], t);
      PrefixConcat(a, Unescape(t));
    } else {
      assert EscapeBody(a) + t == t;
      PrefixConcat(a, Unescape(t));
    }
  }

  lemma PrefixConcat(a: string, r: Option<string>)
    ensures a == [] ==> Prefix(a, r) == r
    ensures a != [] ==> Prefix([a[0]], Prefix(a[1..], r)) == Prefix(a, r)
  {
    match r
    case None =>
    case Some(v) =>
      if a == [] {
        assert a + v == v;
      } else {
        assert [a[0]] + (a[1..] + v) == a + v;
      }
  }

  /** The escaped body is a valid JSON string body that decodes back to the text. */
  lemma EscapeBodyRoundTrip(s: string)
    ensures Unescape(EscapeBody(s)) == Some(s)
  {
    UnescapeAfterEscape(s, []);
    assert EscapeBody(s) + [] == EscapeBody(s);
    assert s + [] == s;
  }

  lemma {:induction false} EscapeBodySnoc(s: string)
    requires s != []
    ensures EscapeBody(s) == EscapeBody(s[..|s| - 1]) + EscapeChar(s[|s| - 1])
    decreases |s|
  {
    if |s| > 1 {
      EscapeBodySnoc(s[1..]);
      assert s[1..][..|s| - 2] == s[..|s| - 1][1..];
    }
  }

  lemma EscapeBodyFirst(s: string)
    requires s != []
    ensures EscapeBody(s) != [] && EscapeBody(s)[0] != '"'
  {
  }

  /** Text with nothing to escape is its own escaped body. */
  lemma {:induction false} EscapeBodyPlain(s: string)
    requires forall k :: 0 <= k < |s| ==> !MustEscape(s[k])
    ensures EscapeBody(s) == s
    decreases |s|
  {
    if s != [] {
      EscapeBodyPlain(s[1..]);
      assert [s[0]] + s[1..] == s;
    }
  }

  /** The escaped body contains no raw control character. */
  lemma {:induction false} EscapeBodyNoControl(s: string)
    ensures forall k :: 0 <= k < |EscapeBody(s)| ==> !IsControl(EscapeBody(s)[k])
    decreases |s|
  {
    if s != [] {
      EscapeBodyNoControl(s[1..]);
      var e, rest := EscapeChar(s[0]), EscapeBody(s[1..]);
      assert EscapeBody(s) == e + rest;
      forall k | 0 <= k < |e + rest| ensures !IsControl((e + rest)[k]) {
        if k >= |e| { assert (e + rest)[k] == rest[k - |e|]; }
      }
    }
  }

  /** Trimming quotes off a quoted body whose first character is not a quote
      leaves the body with only its trailing quotes trimmed. */
  lemma TrimQuoted(b: string)
    requires b != [] && b[0] != '"'
    ensures TrimBy("\"" + b + "\"", IsQuote) == TrimEndBy(b, IsQuote)
  {
    var q := "\"" + b + "\"";
    assert q[1..] == b + "\"";
    assert TrimStartBy(q, IsQuote) == TrimStartBy(b + "\"", IsQuote);
    assert TrimStartBy(b + "\"", IsQuote) == b + "\"";
    assert (b + "\"")[..|b|] == b;
  }

  /** The escaped body ends in a quote exactly when the text does, and then
      that quote is the second half of the escape \". */
  lemma EscapeBodyLast(s: string)
    requires s != []
    ensures var b := EscapeBody(s);
            b != [] && (b[|b| - 1] == '"' <==> s[|s| - 1] == '"')
            && (s[|s| - 1] == '"' ==> |b| >= 2 && b[|b| - 2] == '\\')
  {
    EscapeBodySnoc(s);
    var b, last := EscapeBody(s), EscapeChar(s[|s| - 1]);
    assert b == EscapeBody(s[..|s| - 1]) + last;
    assert b[|b| - 1] == last[|last| - 1];
    if s[|s| - 1] == '"' {
      assert b[|b| - 2] == last[0];
    }
  }

  /** The exact effect of the trim: only the opening and closing quotes are
      removed, except that a text ending in a quote also loses the quote of
      its final escape \". */
  lemma EscapeForJsonShape(s: string)
    requires s != []
    ensures var b := EscapeBody(s);
            EscapeForJson(s) == if s[|s| - 1] == '"' then b[..|b| - 1] else b
  {
    var b := EscapeBody(s);
    var endsInQuote := s[|s| - 1] == '"';
    assert EscapeForJson(s) == TrimBy("\"" + b + "\"", IsQuote) by { EscapeForJsonUnfold(s); }
    assert b != [] && b[0] != '"' && (b[|b| - 1] == '"' <==> endsInQuote)
           && (endsInQuote ==> |b| >= 2 && b[|b| - 2] == '\\') by {
      EscapeBodyFirst(s);
      EscapeBodyLast(s);
    }
    assert EscapeForJson(s) == TrimBy("\"" + b + "\"", IsQuote);
    QuotedTrimShape(b, endsInQuote);
  }

  lemma EscapeForJsonUnfold(s: string)
    requires s != []
    ensures EscapeForJson(s) == TrimBy("\"" + EscapeBody(s) + "\"", IsQuote)
  {
  }

  /** Trimming quotes off a quoted text that does not start with a quote, and
      whose final quote, if any, follows a backslash, removes the two enclosing
      quotes and that final quote. */
  lemma QuotedTrimShape(b: string, endsInQuote: bool)
    requires b != [] && b[0] != '"'
    requires b[|b| - 1] == '"' <==> endsInQuote
    requires endsInQuote ==> |b| >= 2 && b[|b| - 2] == '\\'
    ensures TrimBy("\"" + b + "\"", IsQuote) == if endsInQuote then b[..|b| - 1] else b
  {
    TrimQuoted(b);
    TrimClosingEscape(b);
  }

  /** Trimming trailing quotes off a text whose last quote, if any, follows a
      backslash removes just that quote. */
  lemma TrimClosingEscape(b: string)
    requires b != [] && (b[|b| - 1] == '"' ==> |b| >= 2 && b[|b| - 2] == '\\')
    ensures TrimEndBy(b, IsQuote) == if b[|b| - 1] == '"' then b[..|b| - 1] else b
  {
    if b[|b| - 1] == '"' {
      var init := b[..|b| - 1];
      assert init[|init| - 1] == '\\';
      assert TrimEndBy(b, IsQuote) == TrimEndBy(init, IsQuote) == init;
    }
  }

  /** Text with nothing the serialiser escapes is returned unchanged. */
  lemma EscapeForJsonPlain(s: string)
    requires forall k :: 0 <= k < |s| ==> !MustEscape(s[k])
    ensures EscapeForJson(s) == s
  {
    if s != [] {
      EscapeBodyPlain(s);
      EscapeForJsonShape(s);
    }
  }

  /** A line separator standing alone comes out as its six-character escape. */
  lemma LineSeparatorEscaped()
    ensures EscapeForJson([0x2028 as char]) == "\\u2028"
  {
    EscapeSingle(0x2028 as char);
  }

  /** A one-character text other than a quote comes out as its escape. */
  lemma EscapeSingle(c: char)
    requires c != '"'
    ensures EscapeForJson([c]) == EscapeChar(c)
  {
    var s := [c];
    EscapeForJsonShape(s);
    assert EscapeBody(s) == EscapeChar(s[0]) + EscapeBody(s[1..]);
  }

  /** The sanitised text contains no raw control character. */
  lemma EscapeForJsonNoControl(s: string)
    ensures forall k :: 0 <= k < |EscapeForJson(s)| ==> !IsControl(EscapeForJson(s)[k])
  {
    if s != [] {
      var r, b := EscapeForJson(s), EscapeBody(s);
      assert |r| <= |b| && r == b[..|r|] by {
        EscapeForJsonShape(s);
      }
      assert forall k :: 0 <= k < |b| ==> !IsControl(b[k]) by {
        EscapeBodyNoControl(s);
      }
      PrefixNoControl(b, r);
    }
  }

  lemma PrefixNoControl(b: string, r: string)
    requires forall k :: 0 <= k < |b| ==> !IsControl(b[k])
    requires |r| <= |b| && r == b[..|r|]
    ensures forall k :: 0 <= k < |r| ==> !IsControl(r[k])
  {
    forall k | 0 <= k < |r| ensures !IsControl(r[k]) {
      assert r[k] == b[k];
    }
  }

  /** A text ending in a quote yields a result ending in a lone backslash:
      putting back the trimmed quote gives the full escaped body. */
  lemma EscapeForJsonTrailingQuote(s: string)
    requires s != [] && s[|s| - 1] == '"'
    ensures var r := EscapeForJson(s);
            r != [] && r[|r| - 1] == '\\' && r + "\"" == EscapeBody(s)
  {
    var r, b := EscapeForJson(s), EscapeBody(s);
    assert r == b[..|b| - 1] by {
      EscapeForJsonShape(s);
    }
    assert |b| >= 2 && b[|b| - 1] == '"' && b[|b| - 2] == '\\' by {
      EscapeBodyLast(s);
    }
    DropLast(b);
  }

  lemma DropLast(b: string)
    requires |b| >= 2
    ensures var r := b[..|b| - 1];
            r[|r| - 1] == b[|b| - 2] && r + [b[|b| - 1]] == b
  {
  }

  /** Decoding the sanitised text gives the original back when it does not end
      in a quote; when it does, the result is not a valid JSON string body. */
  lemma EscapeForJsonRoundTrip(s: string)
    ensures s == [] || s[|s| - 1] != '"' ==> Unescape(EscapeForJson(s)) == Some(s)
    ensures s != [] && s[|s| - 1] == '"' ==> Unescape(EscapeForJson(s)) == None
  {
    if s == [] {
    } else if s[|s| - 1] != '"' {
      EscapeForJsonShape(s);
      EscapeBodyRoundTrip(s);
    } else {
      EscapeForJsonTrailingQuoteInvalid(s);
    }
  }

  lemma EscapeForJsonTrailingQuoteInvalid(s: string)
    requires s != [] && s[|s| - 1] == '"'
    ensures Unescape(EscapeForJson(s)) == None
  {
    var init := s[..|s| - 1];
    TrailingQuoteCut(s);
    assert Unescape("\\") == None;
    UnescapeAfterEscape(init, "\\");
  }

  /** For a text ending in a quote, the sanitised text is the escape of the
      rest followed by the lone backslash of the final \". */
  lemma TrailingQuoteCut(s: string)
    requires s != [] && s[|s| - 1] == '"'
    ensures EscapeForJson(s) == EscapeBody(s[..|s| - 1]) + "\\"
  {
    EscapeBodySnoc(s);
    assert EscapeChar(s[|s| - 1]) == "\\\"";
    EscapeForJsonShape(s);
    DropQuote(EscapeBody(s[..|s| - 1]), EscapeBody(s));
  }

  lemma DropQuote(x: string, b: string)
    requires b == x + "\\\""
    ensures b[..|b| - 1] == x + "\\"
  {
    assert b[..|b| - 1] == (x + "\\" + "\"")[..|x| + 1];
  }
}
