/**
 The JSON grammar as a recursive-descent reading of its rules: ordered choice, expectation points
 that throw, one-character negative lookahead, and a skipper that eats whitespace before every
 token. Each rule takes the text ahead of it and returns the text behind it.
 */
module Json {
  import opened Text
  import opened Utf8

  /** `json_object_value`. A double is kept as the text that was matched for it. */
  datatype Json =
    | JArray(items: seq<Json>)
    | JString(text: string)
    | JInt(n: int)
    | JDouble(literal: string)
    | JObject(fields: map<string, Json>)
    | JBool(b: bool)
    | JNull

  const INT64_MIN: int := -0x8000_0000_0000_0000
  const INT64_MAX: int := 0x7fff_ffff_ffff_ffff

  function Skip(s: string): (r: string)
    ensures |r| <= |s|
    ensures r != "" ==> !IsSpace(r[0])
  {
    s[Span(s, IsSpace)..]
  }

  /** After skipping whitespace the next character is `c`. */
  predicate Next(s: string, c: char) { Skip(s) != "" && Skip(s)[0] == c }

  // ----- Whitespace

  predicate Ws(s: string) { All(s, IsSpace) }

  lemma NoWs()
    ensures Ws("")
  {}

  lemma SkipsWs(ws: string, rest: string)
    requires Ws(ws) && (rest == "" || !IsSpace(rest[0]))
    ensures Skip(ws + rest) == rest
  {
    SpanOf(ws, rest, IsSpace);
  }

  /** Every text is whitespace and what is left after skipping it. */
  lemma SkipCut(s: string) returns (ws: string)
    ensures Ws(ws) && s == ws + Skip(s)
  {
    ws := s[..Span(s, IsSpace)];
  }

  lemma NextCut(s: string, c: char) returns (ws: string)
    requires Next(s, c)
    ensures Ws(ws) && s == ws + ([c] + Skip(s)[1..])
  {
    ws := SkipCut(s);
    assert Skip(s) == [c] + Skip(s)[1..];
  }

  /** The next character after whitespace closes or continues the surrounding list. */
  predicate Ends(s: string) { Next(s, ',') || Next(s, ']') || Next(s, '}') }

  lemma EndsOf(ws: string, c: char, rest: string)
    requires Ws(ws) && !IsSpace(c)
    ensures Skip(ws + ([c] + rest)) == [c] + rest && Next(ws + ([c] + rest), c)
    ensures Skip(ws + ([c] + rest))[1..] == rest
  {
    SkipsWs(ws, [c] + rest);
  }

  lemma EndsNoDigit(s: string)
    requires Ends(s)
    ensures s != "" && !IsDigit(s[0]) && s[0] != '-' && s[0] != '+' && !Next(s, '.')
  {}

  // ----- Strings

  lemma {:induction false} HexBound(s: string)
    requires |s| == 4
    ensures ValueOf(s, 16) < 0x10000
  {
    assert ValueOf(s, 16) == 16 * ValueOf(s[..3], 16) + DigitOf(s[3]);
    assert s[..3][..2] == s[..2] && s[..2][..1] == s[..1] && s[..1][..0] == "";
    assert ValueOf(s[..3], 16) == 16 * ValueOf(s[..2], 16) + DigitOf(s[2]);
    assert ValueOf(s[..2], 16) == 16 * ValueOf(s[..1], 16) + DigitOf(s[1]);
    assert ValueOf(s[..1], 16) == 16 * ValueOf("", 16) + DigitOf(s[0]);
  }

  /** `ucn_code`: once `\u` is there, four hexadecimal digits must follow. */
  function ParseUcn(s: string): (r: Parse<uint32>)
    ensures r.Match? ==> |r.rest| < |s|
  {
    if !("\\u" <= s) then NoMatch
    else if |s| < 6 || !All(s[2..6], IsHex) then Threw
    else
      HexBound(s[2..6]);
      Match(ValueOf(s[2..6], 16), s[6..])
  }

  /** The surrogate pair formula, in 32-bit unsigned arithmetic. */
  function Combine(a: uint32, b: uint32): uint32 {
    ((a - 0xD800) * 1024 + (b - 0xDC00) + 0x10000) % 0x1_0000_0000
  }

  function ParseEscaped(s: string): (r: Parse<string>)
    ensures r.Match? ==> |r.rest| < |s|
  {
    if s == "" then NoMatch
    else if s[0] == '&' then
      var t := s[1..];
      if "gt;" <= t then Match(">", t[3..])
      else if "lt;" <= t then Match("<", t[3..])
      else if "amp;" <= t then Match("&", t[4..])
      else Match("&", t)
    else if s[0] == '\\' && |s| > 1 && s[1] in "bfnrt" then
      Match([(s[1] as int - 'a' as int) as char], s[2..])
    else if s[0] == '\\' && |s| > 1 && s[1] in "/\\\"" then Match([s[1]], s[2..])
    else match ParseUcn(s)
      case NoMatch => NoMatch
      case Threw => Threw
      case Match(code, t) =>
        if !IsSurrogate(code) then Match(UcnToUtf8(code).value, t)
        else match ParseUcn(t)
          case Match(code', t') =>
            var bytes := UcnToUtf8(Combine(code, code'));
            if bytes.Some? then Match(bytes.value, t') else NoMatch
          case _ => Threw
  }

  function Prepend(x: string, p: Parse<string>): Parse<string> {
    if p.Match? then Match(x + p.value, p.rest) else p
  }

  /** The characters of a string up to its closing quote; a failed escape reads as the backslash
      itself, a character above 127 throws. */
  function ParseChars(s: string): (r: Parse<string>)
    ensures r.Match? ==> |r.rest| < |s|
    ensures !r.NoMatch?
    decreases |s|
  {
    match ParseEscaped(s)
    case Threw => Threw
    case Match(x, rest) => Prepend(x, ParseChars(rest))
    case NoMatch =>
      if s != "" && s[0] != '"' && s[0] as int < 128 then Prepend([s[0]], ParseChars(s[1..]))
      else if s != "" && s[0] == '"' then Match("", s[1..])
      else Threw
  }

  function ParseString(s: string): (r: Parse<string>)
    ensures r.Match? ==> |r.rest| < |s|
  {
    if Next(s, '"') then ParseChars(Skip(s)[1..]) else NoMatch
  }

  // ----- Numbers, literals

  function ParseInt64(s: string): (r: Parse<Json>)
    ensures r.Match? ==> |r.rest| < |s|
  {
    match ParseInt(Skip(s), INT64_MIN, INT64_MAX)
    case Some((n, rest)) => if Next(rest, '.') then NoMatch else Match(JInt(n), rest)
    case None => NoMatch
  }

  function Lower(c: char): char { if 'A' <= c <= 'Z' then (c as int + 32) as char else c }

  predicate StartsAnyCase(s: string, word: string) {
    |word| <= |s| && forall i | 0 <= i < |word| :: Lower(s[i]) == word[i]
  }

  predicate NotClose(c: char) { c != ')' }

  /** Length of `nan`, `nan(...)`, `inf` or `infinity`, else 0. */
  function NanOrInf(s: string): (n: nat)
    ensures n <= |s|
  {
    if StartsAnyCase(s, "nan") then
      if |s| > 3 && s[3] == '(' then
        var m := Span(s[4..], NotClose);
        if 4 + m == |s| then 0 else 4 + m + 1
      else 3
    else if StartsAnyCase(s, "infinity") then 8
    else if StartsAnyCase(s, "inf") then 3
    else 0
  }

  function SignLength(s: string): (n: nat)
    ensures n <= |s| && n <= 1
  {
    if s != "" && (s[0] == '-' || s[0] == '+') then 1 else 0
  }

  /** Length of an exponent; `None` for an `e` without digits, which fails the whole number. */
  function ExponentLength(s: string): (n: Option<nat>)
    ensures n.Some? ==> n.value <= |s|
  {
    if s == "" || Lower(s[0]) != 'e' then Some(0)
    else
      var k := 1 + SignLength(s[1..]);
      var m := Span(s[k..], IsDigit);
      if m == 0 then None else Some(k + m)
  }

  /** Length of Spirit's `double_` at the start of the text, 0 for no match. */
  function DoubleLength(s: string): (n: nat)
    ensures n <= |s|
  {
    var k := SignLength(s);
    var d := s[k..];
    var n := Span(d, IsDigit);
    if n == 0 && NanOrInf(d) > 0 then k + NanOrInf(d)
    else
      var e := d[n..];
      var f := if e != "" && e[0] == '.' then 1 + Span(e[1..], IsDigit) else 0;
      if n == 0 && f <= 1 then 0
      else match ExponentLength(e[f..])
        case Some(x) => k + n + f + x
        case None => 0
  }

  function ParseDouble(s: string): (r: Parse<Json>)
    ensures r.Match? ==> |r.rest| < |s|
  {
    var t := Skip(s);
    var n := DoubleLength(t);
    if n == 0 then NoMatch else Match(JDouble(t[..n]), t[n..])
  }

  function ParseWord(s: string, word: string, v: Json): (r: Parse<Json>)
    requires word != ""
    ensures r.Match? ==> |r.rest| < |s|
  {
    var t := Skip(s);
    if word <= t then Match(v, t[|word|..]) else NoMatch
  }

  // ----- Values

  /** The alternatives in their order; the first that matches or throws decides. */
  function ParseValue(s: string): (r: Parse<Json>)
    ensures r.Match? ==> |r.rest| < |s|
    decreases |s|, 2
  {
    var items := ParseArray(s);
    if !items.NoMatch? then items else
    var text := ParseString(s);
    if text.Threw? then Threw else
    if text.Match? then Match(JString(text.value), text.rest) else
    var n := ParseInt64(s);
    if !n.NoMatch? then n else
    var d := ParseDouble(s);
    if !d.NoMatch? then d else
    var fields := ParseObject(s);
    if !fields.NoMatch? then fields else
    var t := ParseWord(s, "true", JBool(true));
    if !t.NoMatch? then t else
    var f := ParseWord(s, "false", JBool(false));
    if !f.NoMatch? then f else
    ParseWord(s, "null", JNull)
  }

  function Close(v: Json, c: char, s: string): (r: Parse<Json>)
    ensures r.Match? ==> |r.rest| < |s|
  {
    if Next(s, c) then Match(v, Skip(s)[1..]) else Threw
  }

  function ParseArray(s: string): (r: Parse<Json>)
    ensures r.Match? ==> |r.rest| < |s|
    decreases |s|, 1
  {
    if !Next(s, '[') then NoMatch
    else
      var t := Skip(s)[1..];
      match ParseItems(t)
      case Threw => Threw
      case NoMatch => Close(JArray([]), ']', t)
      case Match(vs, rest) => Close(JArray(vs), ']', rest)
  }

  /** `value_ % ','`: a comma that no value follows is given back. */
  function ParseItems(s: string): (r: Parse<seq<Json>>)
    ensures r.Match? ==> |r.rest| < |s|
    decreases |s|, 3
  {
    match ParseValue(s)
    case Threw => Threw
    case NoMatch => NoMatch
    case Match(v, rest) =>
      if !Next(rest, ',') then Match([v], rest)
      else match ParseItems(Skip(rest)[1..])
        case Threw => Threw
        case NoMatch => Match([v], rest)
        case Match(vs, rest') => Match([v] + vs, rest')
  }

  function ParseObject(s: string): (r: Parse<Json>)
    ensures r.Match? ==> |r.rest| < |s|
    decreases |s|, 1
  {
    if !Next(s, '{') then NoMatch
    else
      var t := Skip(s)[1..];
      match ParsePairs(t)
      case Threw => Threw
      case NoMatch => Close(JObject(map[]), '}', t)
      case Match(ps, rest) => Close(JObject(FirstWins(map[], ps)), '}', rest)
  }

  function ParsePair(s: string): (r: Parse<(string, Json)>)
    ensures r.Match? ==> |r.rest| < |s|
    decreases |s|, 3
  {
    match ParseString(s)
    case NoMatch => NoMatch
    case Threw => Threw
    case Match(name, rest) =>
      if !Next(rest, ':') then Threw
      else match ParseValue(Skip(rest)[1..])
        case Match(v, rest') => Match((name, v), rest')
        case _ => Threw
  }

  function ParsePairs(s: string): (r: Parse<seq<(string, Json)>>)
    ensures r.Match? ==> |r.rest| < |s|
    decreases |s|, 4
  {
    match ParsePair(s)
    case Threw => Threw
    case NoMatch => NoMatch
    case Match(p, rest) =>
      if !Next(rest, ',') then Match([p], rest)
      else match ParsePairs(Skip(rest)[1..])
        case Threw => Threw
        case NoMatch => Match([p], rest)
        case Match(ps, rest') => Match([p] + ps, rest')
  }

  /** `parse_json`: `None` for an exception; text after the root is ignored, and a text whose root is
      neither an object nor an array gives the default value, an empty array. */
  function ParseJson(s: string): Option<Json> {
    var fields := ParseObject(s);
    var root := if fields.NoMatch? then ParseArray(s) else fields;
    match root
    case Match(v, _) => Some(v)
    case NoMatch => Some(JArray([]))
    case Threw => None
  }

  // ----- Which alternatives do not match

  /** The first character of a printed value tells which alternatives do not match. */
  lemma OtherAlternatives(s: string, c: char)
    requires Next(s, c)
    ensures c != '[' ==> ParseArray(s) == NoMatch
    ensures c != '"' ==> ParseString(s) == NoMatch
    ensures c != '{' ==> ParseObject(s) == NoMatch
  {}

  lemma NoNumber(s: string)
    requires Skip(s) != ""
    requires var c := Skip(s)[0]; !IsDigit(c) && c != '-' && c != '+' && c != '.' && Lower(c) != 'i'
    requires Lower(Skip(s)[0]) == 'n' ==> |Skip(s)| > 1 && Lower(Skip(s)[1]) == 'u'
    ensures ParseInt64(s) == NoMatch && ParseDouble(s) == NoMatch
  {
    var t := Skip(s);
    assert Lower(t[0]) != "infinity"[0] && Lower(t[0]) != "inf"[0];
    assert "nan"[0] == 'n' && "nan"[1] == 'a';
    assert SignLength(t) == 0 && t[0..] == t;
  }
}
