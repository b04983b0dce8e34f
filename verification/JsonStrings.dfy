/**
 Strings of a JSON text: the spellings of a character, what they are read as, and the proof that a text is
 read as a string if and only if it is printed from such spellings.
 */
module JsonStrings {
  import opened Text
  import opened Utf8
  import opened Json

  /** One spelling of one character inside a string. `Bare` is a backslash or an ampersand that starts no escape. */
  datatype Piece =
    | Plain(c: char)
    | Bare(c: char)
    | Backslashed(c: char)
    | Control(c: char)
    | Entity(c: char)
    | Ucn(hex: string)
    | UcnPair(hi: string, lo: string)

  predicate Hex4(s: string) { |s| == 4 && All(s, IsHex) }

  predicate WfPiece(p: Piece) {
    match p
    case Plain(c) => c as int < 128 && c != '"' && c != '\\' && c != '&'
    case Bare(c) => c in "\\&"
    case Backslashed(c) => c in "/\\\""
    case Control(c) => c in "bfnrt"
    case Entity(c) => c in "<>&"
    case Ucn(hex) => Hex4(hex) && !IsSurrogate(ValueOf(hex, 16))
    case UcnPair(hi, lo) => Hex4(hi) && Hex4(lo) && IsSurrogate(ValueOf(hi, 16)) && !IsSurrogate(PairCode(hi, lo))
  }

  /** The formula for surrogate pairs. The grammar applies it to any surrogate with any code behind it. */
  function PairCode(hi: string, lo: string): int {
    0x10000 + (ValueOf(hi, 16) - 0xD800) * 0x400 + (ValueOf(lo, 16) - 0xDC00)
  }

  /** Two codes in a row of which the formula makes a surrogate again; the grammar gives them back. */
  predicate DeadPair(s: string) {
    |s| >= 12 && Hex4(s[2..6]) && s[6] == '\\' && s[7] == 'u' && Hex4(s[8..12]) &&
    IsSurrogate(ValueOf(s[2..6], 16)) && IsSurrogate(PairCode(s[2..6], s[8..12]))
  }

  /** Whether the backslash or ampersand at the front of a text starts an escape. */
  predicate Escapes(s: string) {
    "&gt;" <= s || "&lt;" <= s || "&amp;" <= s ||
    (|s| > 1 && s[0] == '\\' && (s[1] in "bfnrt/\\\"" || (s[1] == 'u' && !DeadPair(s))))
  }

  /** Bare characters stand where no escape starts, up to the closing quote. */
  predicate Standing(ps: seq<Piece>) {
    ps == [] || ((ps[0].Bare? ==> !Escapes(PrintPieces(ps) + "\"")) && Standing(ps[1..]))
  }

  predicate WfPieces(ps: seq<Piece>) { (forall i | 0 <= i < |ps| :: WfPiece(ps[i])) && Standing(ps) }

  function PrintPiece(p: Piece): string {
    match p
    case Plain(c) => [c]
    case Bare(c) => [c]
    case Backslashed(c) => "\\" + [c]
    case Control(c) => "\\" + [c]
    case Entity(c) => if c == '<' then "&lt;" else if c == '>' then "&gt;" else "&amp;"
    case Ucn(hex) => "\\u" + hex
    case UcnPair(hi, lo) => "\\u" + hi + ("\\u" + lo)
  }

  /** The code point a piece is read as; for the letter of a control escape that is its distance from `a`. */
  function CodePoint(p: Piece): (code: Code)
    requires WfPiece(p)
  {
    match p
    case Plain(c) => c as int
    case Bare(c) => c as int
    case Backslashed(c) => c as int
    case Control(c) => c as int - 'a' as int
    case Entity(c) => c as int
    case Ucn(hex) => HexBound(hex); ValueOf(hex, 16)
    case UcnPair(hi, lo) => HexBound(hi); HexBound(lo); PairCode(hi, lo)
  }

  function PrintPieces(ps: seq<Piece>): string {
    if ps == [] then "" else PrintPiece(ps[0]) + PrintPieces(ps[1..])
  }

  function CodePoints(ps: seq<Piece>): (codes: seq<Code>)
    requires WfPieces(ps)
    ensures |codes| == |ps|
    ensures forall i | 0 <= i < |ps| :: codes[i] == CodePoint(ps[i])
  {
    if ps == [] then [] else [CodePoint(ps[0])] + CodePoints(ps[1..])
  }

  /** The text of a string token is the encoder's bytes of its code points. */
  function TextOf(ps: seq<Piece>): string
    requires WfPieces(ps)
  {
    EncodeAll(CodePoints(ps))
  }

  lemma AsciiEncodes(c: char)
    requires c as int < 128
    ensures UcnToUtf8(c as int) == Some([c])
  {
    assert Continuation(c as int) == "" && [c] + "" == [c];
  }

  lemma UcnParses(hex: string, rest: string)
    requires Hex4(hex)
    ensures ValueOf(hex, 16) < 0x10000
    ensures ParseUcn("\\u" + hex + rest) == Match(ValueOf(hex, 16), rest)
  {
    HexBound(hex);
    var s := "\\u" + hex + rest;
    hide ValueOf;
    Assoc("\\u", hex, rest);
    TakeDrop("\\u", hex + rest);
    assert s[2..6] == hex && s[6..] == rest;
  }

  lemma EntityParses(c: char, rest: string)
    requires c in "<>&"
    ensures ParseEscaped(PrintPiece(Entity(c)) + rest) == Match([c], rest)
  {
    var s := PrintPiece(Entity(c)) + rest;
    if c == '<' {
      assert s[1..] == "lt;" + rest;
      assert s[1] == 'l';
    } else if c == '>' {
      assert s[1..] == "gt;" + rest;
    } else {
      assert s[1..] == "amp;" + rest;
      assert s[1] == 'a';
    }
  }

  lemma BackslashedParses(c: char, rest: string)
    requires c in "/\\\""
    ensures ParseEscaped("\\" + [c] + rest) == Match([c], rest)
  {
    var s := "\\" + [c] + rest;
    assert s[0] == '\\' && s[1] == c && s[2..] == rest;
    assert c !in "bfnrt";
  }

  lemma {:induction false} ControlParses(c: char, rest: string)
    requires c in "bfnrt"
    ensures 0 < CodePoint(Control(c)) < 128
    ensures ParseEscaped("\\" + [c] + rest) == Match([CodePoint(Control(c)) as char], rest)
  {
    var s := "\\" + [c] + rest;
    assert s[0] == '\\' && s[1] == c && s[2..] == rest;
  }

  lemma EscapedUcn(s: string, code: uint32, t: string)
    requires ParseUcn(s) == Match(code, t)
    ensures s[0] == '\\'
    ensures !IsSurrogate(code) ==> ParseEscaped(s) == Match(UcnToUtf8(code).value, t)
    ensures IsSurrogate(code) && ParseUcn(t).Match? && !IsSurrogate(Combine(code, ParseUcn(t).value)) ==>
              ParseEscaped(s) == Match(UcnToUtf8(Combine(code, ParseUcn(t).value)).value, ParseUcn(t).rest)
  {
    assert "\\u" <= s && s[1] == 'u';
    assert 'u' !in "bfnrt" && 'u' !in "/\\\"";
    hide UcnToUtf8, Combine, ValueOf;
  }

  lemma EscapeContinues(s: string, x: string, rest: string)
    requires ParseEscaped(s) == Match(x, rest)
    ensures ParseChars(s) == Prepend(x, ParseChars(rest))
  {
    hide ParseEscaped;
  }

  /** Where no escape starts, a backslash or an ampersand is itself. */
  lemma {:induction false} BareContinues(c: char, s: string)
    requires s != "" && s[0] == c && c in "\\&" && |s| > 1 && !Escapes(s)
    ensures ParseChars(s) == Prepend([c], ParseChars(s[1..]))
  {
    if c == '&' {
      var t := s[1..];
      assert "gt;" <= t ==> "&gt;" <= s by { Shifted('&', "gt;", s); }
      assert "lt;" <= t ==> "&lt;" <= s by { Shifted('&', "lt;", s); }
      assert "amp;" <= t ==> "&amp;" <= s by { Shifted('&', "amp;", s); }
      assert ParseEscaped(s) == Match("&", t);
    } else {
      assert "&"[0] == '&' && c == '\\';
      assert s[1] !in "bfnrt/\\\"";
      assert s[1] !in "bfnrt" && s[1] !in "/\\\"" by { EscapeLetters(s[1]); }
      if s[1] == 'u' { DeadPairs(s); } else { assert s[1] != "\\u"[1]; }
      assert ParseEscaped(s) == NoMatch;
    }
    hide ParseEscaped, Escapes;
  }

  lemma EscapeLetters(c: char)
    ensures c in "bfnrt/\\\"" <==> c in "bfnrt" || c in "/\\\""
  {
    assert "bfnrt/\\\"" == "bfnrt" + "/\\\"";
  }

  lemma Shifted(c: char, word: string, s: string)
    requires s != "" && s[0] == c
    ensures word <= s[1..] <==> [c] + word <= s
  {
    if word <= s[1..] {
      assert s == [c] + s[1..];
      assert s[1..] == word + s[1..][|word|..];
      Assoc([c], word, s[1..][|word|..]);
    }
    if [c] + word <= s {
      assert s[1..1 + |word|] == ([c] + word)[1..] == word;
      assert s[1..][..|word|] == s[1..1 + |word|];
    }
  }

  lemma StartsCode(t: string)
    ensures "\\u" <= t <==> |t| > 1 && t[0] == '\\' && t[1] == 'u'
  {
    if |t| > 1 && t[0] == '\\' && t[1] == 'u' { assert t == "\\u" + t[2..]; }
  }

  /** What the rule for codes does with two of them. */
  lemma {:induction false} DeadPairs(s: string)
    requires |s| > 1 && s[0] == '\\' && s[1] == 'u'
    ensures ParseEscaped(s) == NoMatch <==> DeadPair(s)
  {
    assert 'u' !in "bfnrt" && 'u' !in "/\\\"";
    StartsCode(s);
    hide ValueOf, UcnToUtf8, All;
    if |s| >= 6 && All(s[2..6], IsHex) {
      var t := s[6..];
      HexBound(s[2..6]);
      StartsCode(t);
      assert ParseUcn(s) == Match(ValueOf(s[2..6], 16), t);
      if |t| >= 6 {
        assert t[2..6] == s[8..12] && t[0] == s[6] && t[1] == s[7];
        HexBound(t[2..6]);
        if IsSurrogate(ValueOf(s[2..6], 16)) { CombineIs(s[2..6], s[8..12]); }
      }
    }
  }

  lemma PlainContinues(c: char, rest: string)
    requires WfPiece(Plain(c))
    ensures ParseChars([c] + rest) == Prepend([c], ParseChars(rest))
  {
    var s := [c] + rest;
    assert s[0] == c && s[1..] == rest;
    assert ParseEscaped(s) == NoMatch;
    hide ParseEscaped;
  }

  /** One printed piece is read back as the bytes of its code point, whatever follows; of a bare character no escape
      may start with it. */
  lemma {:induction false} PieceParses(p: Piece, rest: string)
    requires WfPiece(p) && (p.Bare? ==> rest != "" && !Escapes(PrintPiece(p) + rest))
    ensures ParseChars(PrintPiece(p) + rest) == Prepend(UcnToUtf8(CodePoint(p)).value, ParseChars(rest))
  {
    var s := PrintPiece(p) + rest;
    hide ParseChars, ParseEscaped, ParseUcn, Prepend, UcnToUtf8, Combine;
    match p
    case Plain(c) =>
      AsciiEncodes(c);
      PlainContinues(c, rest);
    case Bare(c) =>
      AsciiEncodes(c);
      TakeDrop([c], rest);
      BareContinues(c, s);
    case Backslashed(c) =>
      AsciiEncodes(c);
      BackslashedParses(c, rest);
      EscapeContinues(s, [c], rest);
    case Control(c) =>
      ControlParses(c, rest);
      AsciiEncodes(CodePoint(p) as char);
      EscapeContinues(s, [CodePoint(p) as char], rest);
    case Entity(c) =>
      AsciiEncodes(c);
      EntityParses(c, rest);
      EscapeContinues(s, [c], rest);
    case Ucn(hex) =>
      UcnParses(hex, rest);
      EscapedUcn(s, ValueOf(hex, 16), rest);
      EscapeContinues(s, UcnToUtf8(ValueOf(hex, 16)).value, rest);
    case UcnPair(hi, lo) =>
      var t := "\\u" + lo + rest;
      UcnParses(hi, t);
      UcnParses(lo, rest);
      PairUnfold(hi, lo, rest);
      CombineIs(hi, lo);
      EscapedUcn(s, ValueOf(hi, 16), t);
      EscapeContinues(s, UcnToUtf8(CodePoint(p)).value, rest);
  }

  lemma PairUnfold(hi: string, lo: string, rest: string)
    ensures "\\u" + hi + ("\\u" + lo) + rest == "\\u" + hi + ("\\u" + lo + rest)
  {
    Assoc("\\u" + hi, "\\u" + lo, rest);
  }

  lemma CombineIs(hi: string, lo: string)
    requires |hi| == 4 && |lo| == 4 && IsSurrogate(ValueOf(hi, 16))
    ensures ValueOf(hi, 16) < 0x10000 && ValueOf(lo, 16) < 0x10000
    ensures Combine(ValueOf(hi, 16), ValueOf(lo, 16)) == PairCode(hi, lo)
  {
    HexBound(hi);
    HexBound(lo);
  }

  /** A code printed in four digits of either case. */
  lemma {:induction false} PrintedCodeParses(n: nat, upper: seq<bool>, rest: string)
    requires |upper| == 4 && Fits(n, 4) && !IsSurrogate(n)
    ensures n < 65536
    ensures ParseChars("\\u" + HexText(n, upper) + rest) == Prepend(UcnToUtf8(n).value, ParseChars(rest))
  {
    HexValue(n, upper);
    HexBound(HexText(n, upper));
    hide HexText, UcnToUtf8, ParseChars;
    PieceParses(Ucn(HexText(n, upper)), rest);
  }

  function HighHalf(code: nat): nat
    requires code >= 65536
  {
    0xD800 + (code - 65536) / 1024
  }

  function LowHalf(code: nat): nat
    requires code >= 65536
  {
    0xDC00 + (code - 65536) % 1024
  }

  /** A code point beyond them, printed as its two surrogates (section 7 of RFC 8259). */
  lemma {:induction false} PrintedPairParses(code: nat, hi: seq<bool>, lo: seq<bool>, rest: string)
    requires |hi| == |lo| == 4 && 65536 <= code < 1114112
    ensures ParseChars("\\u" + HexText(HighHalf(code), hi) + ("\\u" + HexText(LowHalf(code), lo)) + rest)
         == Prepend(UcnToUtf8(code).value, ParseChars(rest))
  {
    var a, b := HighHalf(code), LowHalf(code);
    assert 0xD800 <= a < 0xDC00 <= b < 0xE000 && code == 65536 + (a - 0xD800) * 1024 + (b - 0xDC00);
    hide HighHalf, LowHalf, HexText, UcnToUtf8, ParseChars, ValueOf, WfPiece, CodePoint, Fits;
    FourDigits(a);
    FourDigits(b);
    SurrogatesAre(a, b, hi, lo);
    PieceParses(UcnPair(HexText(a, hi), HexText(b, lo)), rest);
  }

  lemma SurrogatesAre(a: nat, b: nat, hi: seq<bool>, lo: seq<bool>)
    requires |hi| == |lo| == 4 && Fits(a, 4) && Fits(b, 4) && 0xD800 <= a < 0xDC00 <= b < 0xE000
    ensures var p := UcnPair(HexText(a, hi), HexText(b, lo));
      WfPiece(p) && CodePoint(p) == 65536 + (a - 0xD800) * 1024 + (b - 0xDC00)
  {
    HexValue(a, hi);
    HexValue(b, lo);
    hide HexText, ValueOf, Fits, All;
  }

  lemma FourDigits(n: nat)
    requires n < 65536
    ensures Fits(n, 4)
  {
    var a := n / 16;
    var b := a / 16;
    var c := b / 16;
    assert c / 16 == 0 && Fits(0, 0);
    OneMoreDigit(c, 0);
    OneMoreDigit(b, 1);
    OneMoreDigit(a, 2);
    OneMoreDigit(n, 3);
  }

  lemma OneMoreDigit(n: nat, width: nat)
    ensures Fits(n, width + 1) <==> Fits(n / 16, width)
    ensures Fits(n, 0) <==> n == 0
  {}

  /** Up to the closing quote decides whether an escape starts. */
  lemma {:induction false} EscapesBeforeQuote(u: string, rest: string)
    requires |u| > 1 && u[0] in "\\&" && u[|u| - 1] == '"'
    ensures Escapes(u + rest) <==> Escapes(u)
  {
    var s := u + rest;
    assert forall i | 0 <= i < |u| :: s[i] == u[i];
    if u[0] == '&' {
      WordBeforeQuote("&gt;", u, rest);
      WordBeforeQuote("&lt;", u, rest);
      WordBeforeQuote("&amp;", u, rest);
    } else {
      assert "&"[0] == '&' && !("&gt;" <= s) && !("&gt;" <= u) && !("&lt;" <= s) && !("&lt;" <= u);
      assert !("&amp;" <= s) && !("&amp;" <= u);
      if s[1] == 'u' { DeadBeforeQuote(u, rest); }
    }
  }

  lemma WordBeforeQuote(word: string, u: string, rest: string)
    requires u != "" && u[|u| - 1] == '"' && '"' !in word
    ensures word <= u + rest <==> word <= u
  {
    var s := u + rest;
    assert forall i | 0 <= i < |u| :: s[i] == u[i];
    if |u| < |word| {
      assert word[|u| - 1] in word && s[|u| - 1] == '"';
    } else {
      assert s[..|word|] == u[..|word|];
    }
  }

  lemma {:induction false} DeadBeforeQuote(u: string, rest: string)
    requires |u| > 1 && u[1] == 'u' && u[|u| - 1] == '"'
    ensures DeadPair(u + rest) <==> DeadPair(u)
  {
    var s, n := u + rest, |u| - 1;
    hide ValueOf, PairCode;
    if |u| >= 12 {
      assert s[2..6] == u[2..6] && s[8..12] == u[8..12] && s[6] == u[6] && s[7] == u[7];
    } else if |s| >= 12 {
      assert s[n] == '"' && !IsHex('"');
      assert 2 <= n < 6 ==> s[2..6][n - 2] == '"';
      assert 8 <= n ==> s[8..12][n - 8] == '"';
    }
  }

  lemma {:induction false} PiecesParse(ps: seq<Piece>, rest: string)
    requires WfPieces(ps)
    ensures ParseChars(PrintPieces(ps) + ("\"" + rest)) == Match(TextOf(ps), rest)
  {
    var q := "\"" + rest;
    if ps == [] {
      assert PrintPieces(ps) + q == q;
      assert ParseEscaped(q) == NoMatch;
      assert q[1..] == rest;
    } else {
      var after := PrintPieces(ps[1..]) + q;
      StandingUnfold(ps, rest);
      hide PrintPiece, UcnToUtf8, ParseChars, CodePoint, WfPiece, Escapes, Standing;
      assert WfPiece(ps[0]);
      PiecesParse(ps[1..], rest);
      Assoc(PrintPiece(ps[0]), PrintPieces(ps[1..]), q);
      PieceParses(ps[0], after);
      assert CodePoints(ps)[1..] == CodePoints(ps[1..]);
    }
  }

  /** The first piece stands as well with text behind the closing quote. */
  lemma {:induction false} StandingUnfold(ps: seq<Piece>, rest: string)
    requires ps != [] && (ps[0].Bare? ==> WfPiece(ps[0]))
    ensures var s := PrintPiece(ps[0]) + (PrintPieces(ps[1..]) + ("\"" + rest));
      Standing(ps) <==> Standing(ps[1..]) && (ps[0].Bare? ==> !Escapes(s))
  {
    if ps[0].Bare? {
      var u, more := PrintPieces(ps) + "\"", PrintPieces(ps[1..]);
      assert u[0] == ps[0].c;
      Assoc(PrintPieces(ps), "\"", rest);
      Assoc(PrintPiece(ps[0]), more, "\"" + rest);
      hide Escapes;
      EscapesBeforeQuote(u, rest);
    }
  }

  /** Code points spelled in any mix of plain characters, escapes and surrogate pairs parse to bytes that decode if
      and only if the encoder is right on all of them, and then to exactly those code points. */
  lemma {:induction false} StringDecodes(ps: seq<Piece>, rest: string)
    requires WfPieces(ps)
    ensures var p := ParseString("\"" + (PrintPieces(ps) + ("\"" + rest)));
      p.Match? && (Decode(p.value).Some? <==> forall i | 0 <= i < |ps| :: EncodesRight(CodePoint(ps[i]))) &&
      (Decode(p.value).Some? ==> Decode(p.value) == Some(CodePoints(ps)))
  {
    hide ParseString, WfPiece, CodePoint, Decode, EncodeAll, PrintPieces, EncodesRight;
    var t := "\"" + (PrintPieces(ps) + ("\"" + rest));
    QuotedParses("", ps, rest);
    assert "" + t == t;
    EncodeAllDecodes(CodePoints(ps));
    assert forall i | 0 <= i < |ps| :: CodePoints(ps)[i] == CodePoint(ps[i]);
  }

  /** The plain spelling of an ASCII text: quote, backslash and ampersand are escaped. */
  function Spell(s: string): (ps: seq<Piece>)
    requires forall i | 0 <= i < |s| :: s[i] as int < 128
    ensures |ps| == |s| && WfPieces(ps)
    ensures forall i | 0 <= i < |s| :: CodePoint(ps[i]) == s[i] as int
  {
    if s == "" then []
    else
      var p := if s[0] == '"' || s[0] == '\\' then Backslashed(s[0])
               else if s[0] == '&' then Entity('&') else Plain(s[0]);
      [p] + Spell(s[1..])
  }

  /** A text without quote, backslash and ampersand is spelled as it is. */
  lemma {:induction false} SpellPrints(s: string)
    requires forall i | 0 <= i < |s| :: s[i] as int < 128 && s[i] != '"' && s[i] != '\\' && s[i] != '&'
    ensures PrintPieces(Spell(s)) == s
  {
    if s != "" {
      SpellPrints(s[1..]);
      assert s == [s[0]] + s[1..];
    }
  }

  lemma {:induction false} SpellText(s: string)
    requires forall i | 0 <= i < |s| :: s[i] as int < 128
    ensures TextOf(Spell(s)) == s
  {
    var codes := CodePoints(Spell(s));
    AsciiText(codes, s);
  }

  lemma {:induction false} AsciiText(codes: seq<Code>, s: string)
    requires |codes| == |s| && forall i | 0 <= i < |s| :: codes[i] == s[i] as int < 128
    ensures EncodeAll(codes) == s
  {
    if s != "" {
      AsciiText(codes[1..], s[1..]);
      AsciiEncodes(s[0]);
      assert s == [s[0]] + s[1..];
    }
  }

  // ----- Control escapes

  /** The code point that a piece is meant to give: for a control escape that of section 7 of RFC 8259, for
      every other one what the grammar makes of it. */
  function Meaning(p: Piece): (code: Code)
    requires WfPiece(p)
  {
    if !p.Control? then CodePoint(p)
    else if p.c == 'b' then 0x08 else if p.c == 'f' then 0x0C else if p.c == 'n' then 0x0A
    else if p.c == 'r' then 0x0D else 0x09
  }

  function Meanings(ps: seq<Piece>): (codes: seq<Code>)
    requires WfPieces(ps)
    ensures |codes| == |ps|
    ensures forall i | 0 <= i < |ps| :: codes[i] == Meaning(ps[i])
  {
    if ps == [] then [] else [Meaning(ps[0])] + Meanings(ps[1..])
  }

  predicate NoControls(ps: seq<Piece>) { forall i | 0 <= i < |ps| :: !ps[i].Control? }

  /** Of the control escapes at most line feeds. */
  predicate OnlyLineFeeds(ps: seq<Piece>) { forall i | 0 <= i < |ps| :: ps[i].Control? ==> ps[i].c == 'n' }

  /** A control escape is never read as what is meant by it. A line feed alone comes out right where carriage
      returns are turned into line feeds afterwards. */
  lemma {:induction false} PieceMeant(p: Piece)
    requires WfPiece(p)
    ensures var x, y := UcnToUtf8(CodePoint(p)).value, UcnToUtf8(Meaning(p)).value;
      |x| == |y| && (x == y <==> !p.Control?) && (CrToLf(x) == CrToLf(y) <==> p.Control? ==> p.c == 'n')
  {
    if p.Control? {
      var a, b := CodePoint(p) as char, Meaning(p) as char;
      AsciiEncodes(a);
      AsciiEncodes(b);
      hide UcnToUtf8, CrToLf;
      CrToLfOne(a);
      CrToLfOne(b);
      assert [a][0] == a && [b][0] == b;
      var x, y := if a == '\r' then '\n' else a, if b == '\r' then '\n' else b;
      assert [x][0] == x && [y][0] == y;
    }
  }

  lemma SameHeads(a: string, b: string, x: string, y: string)
    requires |a| == |b|
    ensures a + x == b + y <==> a == b && x == y
  {
    if a + x == b + y {
      TakeDrop(a, x);
      TakeDrop(b, y);
    }
  }

  lemma ControlsUnfold(p: Piece, rest: seq<Piece>)
    ensures NoControls([p] + rest) <==> !p.Control? && NoControls(rest)
    ensures OnlyLineFeeds([p] + rest) <==> (p.Control? ==> p.c == 'n') && OnlyLineFeeds(rest)
  {
    var ps := [p] + rest;
    assert ps[0] == p && forall i | 0 <= i < |rest| :: ps[i + 1] == rest[i];
  }

  /** A string is read as meant if and only if it contains no control escape, and after the replacement
      of carriage returns if and only if its control escapes are line feeds. */
  lemma {:induction false} MeantExactly(ps: seq<Piece>)
    requires WfPieces(ps)
    ensures TextOf(ps) == EncodeAll(Meanings(ps)) <==> NoControls(ps)
    ensures CrToLf(TextOf(ps)) == CrToLf(EncodeAll(Meanings(ps))) <==> OnlyLineFeeds(ps)
  {
    if ps != [] {
      var p, rest := ps[0], ps[1..];
      MeantExactly(rest);
      ControlsUnfold(p, rest);
      assert ps == [p] + rest;
      assert CodePoints(ps)[1..] == CodePoints(rest) && Meanings(ps)[1..] == Meanings(rest);
      PieceMeant(p);
      hide UcnToUtf8, CrToLf, CodePoint, Meaning, WfPiece, NoControls, OnlyLineFeeds;
      var x, y := UcnToUtf8(CodePoint(p)).value, UcnToUtf8(Meaning(p)).value;
      var s, t := TextOf(rest), EncodeAll(Meanings(rest));
      SameHeads(x, y, s, t);
      SameHeads(CrToLf(x), CrToLf(y), CrToLf(s), CrToLf(t));
      CrToLfAppend(x, s);
      CrToLfAppend(y, t);
    }
  }

  // ----- Quoted strings

  function Quoted(ps: seq<Piece>): string { "\"" + PrintPieces(ps) + "\"" }

  lemma QuotedParses(ws: string, ps: seq<Piece>, rest: string)
    requires Ws(ws) && WfPieces(ps)
    ensures ParseString(ws + ("\"" + (PrintPieces(ps) + ("\"" + rest)))) == Match(TextOf(ps), rest)
  {
    hide ParseChars, PrintPieces, TextOf, WfPieces;
    var t := PrintPieces(ps) + ("\"" + rest);
    SkipsWs(ws, "\"" + t);
    assert ("\"" + t)[1..] == t;
    PiecesParse(ps, rest);
  }

  lemma QuotedUnfold(ps: seq<Piece>, rest: string)
    ensures Quoted(ps) + rest == "\"" + (PrintPieces(ps) + ("\"" + rest))
  {
    Assoc4("\"", PrintPieces(ps), "\"", rest);
  }

  // ----- Every string that is read is a printed one

  /** What was matched by an escape is a printed piece, or a bare ampersand. */
  lemma {:induction false} EscapeRead(s: string) returns (p: Piece, t: string)
    requires ParseEscaped(s).Match?
    ensures WfPiece(p) && s == PrintPiece(p) + t && (p.Bare? ==> !Escapes(s))
    ensures ParseEscaped(s) == Match(UcnToUtf8(CodePoint(p)).value, t)
  {
    t := ParseEscaped(s).rest;
    if s[0] == '&' {
      p, t := AmpersandRead(s);
    } else if |s| > 1 && s[1] in "bfnrt" {
      p := Control(s[1]);
      assert s == PrintPiece(p) + t;
      AsciiEncodes(CodePoint(p) as char);
    } else if |s| > 1 && s[1] in "/\\\"" {
      p := Backslashed(s[1]);
      assert s == PrintPiece(p) + t;
      AsciiEncodes(s[1]);
    } else {
      p, t := UcnRead(s);
    }
  }

  lemma {:induction false} AmpersandRead(s: string) returns (p: Piece, t: string)
    requires s != "" && s[0] == '&'
    ensures WfPiece(p) && s == PrintPiece(p) + t && (p.Bare? ==> !Escapes(s))
    ensures ParseEscaped(s) == Match(UcnToUtf8(CodePoint(p)).value, t)
  {
    Shifted('&', "gt;", s);
    Shifted('&', "lt;", s);
    Shifted('&', "amp;", s);
    assert ['&'] + "gt;" == "&gt;" && ['&'] + "lt;" == "&lt;" && ['&'] + "amp;" == "&amp;";
    if "&gt;" <= s {
      p, t := Entity('>'), s[4..];
      assert s[1..][3..] == t;
    } else if "&lt;" <= s {
      p, t := Entity('<'), s[4..];
      assert s[1..][3..] == t;
    } else if "&amp;" <= s {
      p, t := Entity('&'), s[5..];
      assert s[1..][4..] == t;
    } else {
      p, t := Bare('&'), s[1..];
    }
    assert s == PrintPiece(p) + t;
    AsciiEncodes(CodePoint(p) as char);
  }

  lemma {:induction false} UcnRead(s: string) returns (p: Piece, t: string)
    requires ParseEscaped(s).Match? && s[0] != '&' && !(s[0] == '\\' && |s| > 1 && s[1] in "bfnrt/\\\"")
    ensures WfPiece(p) && !p.Bare? && s == PrintPiece(p) + t
    ensures ParseEscaped(s) == Match(UcnToUtf8(CodePoint(p)).value, t)
  {
    if |s| > 1 { EscapeLetters(s[1]); }
    hide UcnToUtf8, ValueOf, PairCode;
    var hi := s[2..6];
    HexBound(hi);
    assert s == "\\u" + hi + s[6..];
    if !IsSurrogate(ValueOf(hi, 16)) {
      p, t := Ucn(hi), s[6..];
    } else {
      var u := s[6..];
      var lo := u[2..6];
      assert u == "\\u" + lo + u[6..];
      CombineIs(hi, lo);
      p, t := UcnPair(hi, lo), u[6..];
      assert s == "\\u" + hi + ("\\u" + lo) + t by { PairUnfold(hi, lo, t); }
    }
  }

  /** One piece is taken off a string that is read, unless it is at its closing quote. */
  lemma {:induction false} PieceRead(s: string) returns (p: Piece, t: string)
    requires ParseChars(s).Match? && s != "" && s[0] != '"'
    ensures WfPiece(p) && s == PrintPiece(p) + t && (p.Bare? ==> !Escapes(s))
    ensures ParseChars(s) == Prepend(UcnToUtf8(CodePoint(p)).value, ParseChars(t))
  {
    if ParseEscaped(s).Match? {
      hide Escapes, PrintPiece, CodePoint, UcnToUtf8, ParseEscaped;
      p, t := EscapeRead(s);
      EscapeContinues(s, UcnToUtf8(CodePoint(p)).value, t);
    } else {
      t := s[1..];
      AsciiEncodes(s[0]);
      assert s == [s[0]] + t;
      if s[0] == '\\' {
        p := Bare('\\');
        NothingEscapes(s);
      } else {
        assert s[0] != '&';
        p := Plain(s[0]);
      }
      hide ParseEscaped, Escapes;
    }
  }

  lemma {:induction false} NothingEscapes(s: string)
    requires s != "" && s[0] == '\\' && ParseEscaped(s).NoMatch?
    ensures !Escapes(s)
  {
    assert "&gt;"[0] == "&lt;"[0] == "&amp;"[0] == '&';
    assert !("&gt;" <= s) && !("&lt;" <= s) && !("&amp;" <= s);
    if |s| > 1 {
      EscapeLetters(s[1]);
      if s[1] == 'u' { DeadPairs(s); }
    }
  }

  /** The characters up to a closing quote, when they are read at all, are printed pieces. */
  lemma {:induction false} PiecesRead(s: string) returns (ps: seq<Piece>)
    requires ParseChars(s).Match?
    ensures WfPieces(ps) && s == PrintPieces(ps) + ("\"" + ParseChars(s).rest) && ParseChars(s).value == TextOf(ps)
    decreases |s|
  {
    if s[0] == '"' {
      ps := [];
      assert ParseEscaped(s) == NoMatch;
      assert s == PrintPieces(ps) + ("\"" + s[1..]);
    } else {
      var p, t := PieceRead(s);
      hide ParseChars, Escapes, PrintPiece, CodePoint, WfPiece, UcnToUtf8;
      assert PrintPiece(p) != "" by { PieceNotEmpty(p); }
      var qs := PiecesRead(t);
      ps := [p] + qs;
      var q := "\"" + ParseChars(s).rest;
      assert ps[1..] == qs;
      Assoc(PrintPiece(p), PrintPieces(qs), q);
      StandingUnfold(ps, ParseChars(s).rest);
      assert CodePoints(ps)[1..] == CodePoints(qs);
    }
  }

  lemma PieceNotEmpty(p: Piece)
    ensures PrintPiece(p) != ""
  {}

  lemma {:induction false} StringRead(s: string) returns (ws: string, ps: seq<Piece>)
    requires ParseString(s).Match?
    ensures Ws(ws) && WfPieces(ps) && s == ws + (Quoted(ps) + ParseString(s).rest)
    ensures ParseString(s).value == TextOf(ps)
  {
    ws := NextCut(s, '"');
    hide ParseChars, WfPieces, TextOf, Quoted;
    ps := PiecesRead(Skip(s)[1..]);
    QuotedUnfold(ps, ParseString(s).rest);
  }
}
