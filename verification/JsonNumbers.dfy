/**
 Numbers of a JSON text: every spelling that the integer rule and the real-number rule of the grammar take, what
 it is read as, and the proof that nothing else is read as a number.
 */
module JsonNumbers {
  import opened Text
  import opened Json

  datatype Exponent = Exponent(e: char, sign: string, digits: string)

  datatype Number =
    | Decimal(sign: string, whole: string, fraction: Option<string>, exponent: Option<Exponent>)
    | Special(sign: string, word: string)

  predicate IsSign(s: string) { s == "" || s == "-" || s == "+" }

  predicate WfExponent(x: Exponent) {
    Lower(x.e) == 'e' && IsSign(x.sign) && x.digits != "" && All(x.digits, IsDigit)
  }

  predicate Open(word: string) { |word| > 3 && word[3] == '(' }

  /** Not a number, with or without a text in parentheses, and infinity, in any case. */
  predicate IsSpecial(word: string) {
    (StartsAnyCase(word, "nan") &&
     (|word| == 3 || (Open(word) && |word| > 4 && word[|word| - 1] == ')' && ')' !in word[4..|word| - 1]))) ||
    (StartsAnyCase(word, "inf") && |word| == 3) ||
    (StartsAnyCase(word, "infinity") && |word| == 8)
  }

  /** The digits in front of any point or exponent, as a signed 64-bit number. */
  predicate InRange(n: Number)
    requires n.Decimal?
  {
    INT64_MIN <= Signed(n.sign == "-", ValueOf(n.whole, 10)) <= INT64_MAX
  }

  /** No point, and small enough for the integer rule, which comes first. */
  predicate IsInteger(n: Number) { n.Decimal? && n.whole != "" && n.fraction.None? && InRange(n) }

  /** A number the integer rule takes must end there: it cannot have an exponent. */
  predicate WfNumber(n: Number) {
    match n
    case Special(sign, word) => IsSign(sign) && IsSpecial(word)
    case Decimal(sign, whole, fraction, exponent) =>
      IsSign(sign) && All(whole, IsDigit) &&
      (fraction.Some? ==> All(fraction.value, IsDigit)) &&
      (exponent.Some? ==> WfExponent(exponent.value)) &&
      (whole == "" ==> fraction.Some? && fraction.value != "") &&
      (IsInteger(n) ==> exponent.None?)
  }

  function PointText(fraction: Option<string>): string { if fraction.None? then "" else "." + fraction.value }

  function ExponentText(x: Option<Exponent>): string {
    if x.None? then "" else [x.value.e] + (x.value.sign + x.value.digits)
  }

  function NumberText(n: Number): string {
    match n
    case Special(sign, word) => sign + word
    case Decimal(sign, whole, fraction, exponent) => sign + (whole + (PointText(fraction) + ExponentText(exponent)))
  }

  function NumberValue(n: Number): Json {
    if IsInteger(n) then JInt(Signed(n.sign == "-", ValueOf(n.whole, 10))) else JDouble(NumberText(n))
  }

  // ----- Tokens

  lemma SignOf(sign: string, t: string)
    requires IsSign(sign) && (t == "" || (t[0] != '-' && t[0] != '+'))
    ensures SignLength(sign + t) == |sign| && (sign + t)[|sign|..] == t
    ensures |sign| > 0 ==> sign + t != "" && ((sign + t)[0] == '-' <==> sign == "-")
  {
    if sign == "" { assert sign + t == t; }
  }

  lemma SignCut(s: string) returns (sign: string)
    ensures IsSign(sign) && |sign| == SignLength(s) && s == sign + s[|sign|..]
  {
    sign := s[..SignLength(s)];
    if |sign| == 1 { assert sign == [s[0]]; }
  }

  /** Digits in front of something else. */
  lemma {:induction false} WholeOf(whole: string, t: string)
    requires All(whole, IsDigit) && t != "" && !IsDigit(t[0]) && t[0] != '-' && t[0] != '+'
    ensures var d := whole + t;
      Span(d, IsDigit) == |whole| && d[|whole|..] == t && d[0] != '-' && d[0] != '+' &&
      (if whole == "" then d[0] == t[0] else IsDigit(d[0]))
  {
    SpanOf(whole, t, IsDigit);
    assert whole != "" ==> IsDigit(whole[0]) && (whole + t)[0] == whole[0];
    hide Span;
  }

  /** What the signed integer rule makes of a sign and digits. */
  lemma {:induction false} DigitsRead(sign: string, whole: string, t: string)
    requires IsSign(sign) && All(whole, IsDigit) && (t == "" || !IsDigit(t[0]))
    requires whole == "" ==> t == "" || (t[0] != '-' && t[0] != '+')
    ensures var v := Signed(sign == "-", ValueOf(whole, 10));
      ParseInt(sign + (whole + t), INT64_MIN, INT64_MAX)
        == if whole != "" && INT64_MIN <= v <= INT64_MAX then Some((v, t)) else None
  {
    SpanOf(whole, t, IsDigit);
    assert whole != "" ==> IsDigit(whole[0]) && (whole + t)[0] == whole[0];
    SignOf(sign, whole + t);
    hide Span, ValueOf;
    if sign == "" { assert sign + (whole + t) == whole + t; }
  }

  lemma {:induction false} ExponentRead(x: Option<Exponent>, rest: string)
    requires (x.Some? ==> WfExponent(x.value)) && Ends(rest)
    ensures ExponentLength(ExponentText(x) + rest) == Some(|ExponentText(x)|)
  {
    EndsNoDigit(rest);
    if x.None? {
      assert "" + rest == rest;
      EndsNoExponent(rest);
    } else {
      var x := x.value;
      hide Ends, ExponentLength, Lower;
      Assoc([x.e], x.sign + x.digits, rest);
      Assoc(x.sign, x.digits, rest);
      ExponentOf(x.e, x.sign, x.digits, rest);
    }
  }

  lemma ExponentUnfold(s: string)
    requires s != "" && Lower(s[0]) == 'e'
    ensures var k := 1 + SignLength(s[1..]);
      var m := Span(s[k..], IsDigit);
      ExponentLength(s) == if m == 0 then None else Some(k + m)
  {
    hide Span, SignLength, Lower;
  }

  lemma {:induction false} ExponentOf(e: char, sign: string, digits: string, rest: string)
    requires Lower(e) == 'e' && IsSign(sign) && digits != "" && All(digits, IsDigit)
    requires rest != "" && !IsDigit(rest[0]) && rest[0] != '-' && rest[0] != '+'
    ensures ExponentLength([e] + (sign + (digits + rest))) == Some(1 + |sign| + |digits|)
  {
    hide *;
    var t := digits + rest;
    WholeOf(digits, rest);
    SignOf(sign, t);
    DropTwo([e], sign, t);
    ExponentUnfold([e] + (sign + t));
  }

  lemma EndsNoExponent(s: string)
    requires Ends(s)
    ensures ExponentLength(s) == Some(0)
  {}

  /** The text behind the digits of a decimal number. */
  function Behind(n: Number): string
    requires n.Decimal?
  {
    PointText(n.fraction) + ExponentText(n.exponent)
  }

  lemma {:induction false} BehindStarts(n: Number, rest: string)
    requires n.Decimal? && WfNumber(n) && Ends(rest)
    ensures var t := Behind(n) + rest;
      t != "" && !IsDigit(t[0]) && t[0] != '-' && t[0] != '+' && (n.fraction.Some? <==> t[0] == '.') &&
      (Next(t, '.') <==> t[0] == '.')
  {
    EndsNoDigit(rest);
    var t := Behind(n) + rest;
    if n.fraction.Some? {
      assert t[0] == '.';
    } else if n.exponent.Some? {
      assert t[0] == n.exponent.value.e;
    } else {
      assert t == rest;
    }
  }

  lemma DecimalUnfold(n: Number, rest: string)
    requires n.Decimal?
    ensures NumberText(n) + rest == n.sign + (n.whole + (Behind(n) + rest))
    ensures |NumberText(n)| == |n.sign| + |n.whole| + |PointText(n.fraction)| + |ExponentText(n.exponent)|
    ensures Behind(n) + rest == PointText(n.fraction) + (ExponentText(n.exponent) + rest)
    ensures n.fraction.Some? ==> Behind(n) + rest == "." + (n.fraction.value + (ExponentText(n.exponent) + rest))
    ensures n.fraction.None? ==> Behind(n) + rest == ExponentText(n.exponent) + rest
  {
    hide ExponentText;
    Assoc(n.sign, n.whole + Behind(n), rest);
    Assoc(n.whole, Behind(n), rest);
    Assoc(PointText(n.fraction), ExponentText(n.exponent), rest);
    if n.fraction.Some? {
      Assoc(".", n.fraction.value, ExponentText(n.exponent) + rest);
    } else {
      assert "" + ExponentText(n.exponent) == ExponentText(n.exponent);
    }
  }

  /** The length of the point and of the digits behind it. */
  function PointLength(t: string): (f: nat)
    ensures f <= |t|
  {
    if t != "" && t[0] == '.' then 1 + Span(t[1..], IsDigit) else 0
  }

  // ----- Printed numbers are read back

  lemma {:induction false} DecimalLength(n: Number, rest: string)
    requires n.Decimal? && WfNumber(n) && Ends(rest)
    ensures DoubleLength(NumberText(n) + rest) == |NumberText(n)|
  {
    DecimalUnfold(n, rest);
    GStarts(n.exponent, rest);
    ExponentRead(n.exponent, rest);
    hide ExponentText, ExponentLength, WfExponent, InRange, Ends, DoubleLength, NumberText, Behind, PointText;
    DecimalOf(n.sign, n.whole, n.fraction, ExponentText(n.exponent) + rest, |ExponentText(n.exponent)|);
  }

  /** The length of a number by its parts; `g` is the text behind the fraction. */
  lemma {:induction false} DecimalOf(sign: string, whole: string, fraction: Option<string>, g: string, x: nat)
    requires IsSign(sign) && All(whole, IsDigit) && (fraction.Some? ==> All(fraction.value, IsDigit))
    requires whole == "" ==> fraction.Some? && fraction.value != ""
    requires g != "" && !IsDigit(g[0]) && g[0] != '-' && g[0] != '+' && g[0] != '.'
    requires ExponentLength(g) == Some(x)
    ensures DoubleLength(sign + (whole + (PointText(fraction) + g))) == |sign| + |whole| + |PointText(fraction)| + x
  {
    PointIs(fraction, g);
    hide Span, All, IsDigit, SignLength, ExponentLength, NanOrInf, IsSign, PointText, PointLength;
    var t := PointText(fraction) + g;
    var d := whole + t;
    WholeOf(whole, t);
    SignOf(sign, d);
    if whole == "" {
      assert d == t;
      PointIsNoWord(d);
    }
    LengthIs(sign + d);
  }

  /** The rule itself. */
  lemma LengthIs(s: string)
    ensures var d := s[SignLength(s)..];
      var k := Span(d, IsDigit);
      var f := PointLength(d[k..]);
      var x := ExponentLength(d[k..][f..]);
      if k == 0 && NanOrInf(d) > 0 then DoubleLength(s) == SignLength(s) + NanOrInf(d)
      else if (k == 0 && f <= 1) || x.None? then DoubleLength(s) == 0
      else DoubleLength(s) == SignLength(s) + k + f + x.value
  {
    hide Span, NanOrInf, SignLength, ExponentLength;
  }

  lemma {:induction false} PointIs(fraction: Option<string>, g: string)
    requires fraction.Some? ==> All(fraction.value, IsDigit)
    requires g != "" && !IsDigit(g[0]) && g[0] != '-' && g[0] != '+' && g[0] != '.'
    ensures var t := PointText(fraction) + g;
      PointLength(t) == |PointText(fraction)| && t[PointLength(t)..] == g &&
      !IsDigit(t[0]) && t[0] != '-' && t[0] != '+' && (t[0] == '.' <==> fraction.Some?)
  {
    var t := PointText(fraction) + g;
    if fraction.Some? {
      SpanOf(fraction.value, g, IsDigit);
      Assoc(".", fraction.value, g);
      TakeDrop(".", fraction.value + g);
      DropDrop(t, 1, |fraction.value|);
    } else {
      assert t == g && t[0..] == t;
    }
    hide Span, All;
  }

  /** No digit follows the digits of a fraction. */
  lemma GStarts(x: Option<Exponent>, rest: string)
    requires (x.Some? ==> WfExponent(x.value)) && Ends(rest)
    ensures var g := ExponentText(x) + rest;
      g != "" && !IsDigit(g[0]) && g[0] != '-' && g[0] != '+' && g[0] != '.'
  {
    EndsNoDigit(rest);
    if x.Some? {
      assert (ExponentText(x) + rest)[0] == x.value.e;
    } else {
      assert "" + rest == rest;
    }
  }

  lemma PointIsNoWord(d: string)
    requires d != "" && d[0] == '.'
    ensures NanOrInf(d) == 0
  {
    assert "nan"[0] == 'n' && "inf"[0] == "infinity"[0] == 'i' && Lower('.') == '.';
    assert !StartsAnyCase(d, "nan") && !StartsAnyCase(d, "inf") && !StartsAnyCase(d, "infinity");
  }

  lemma {:induction false} WordLength(word: string, rest: string)
    requires IsSpecial(word) && Ends(rest)
    ensures NanOrInf(word + rest) == |word| > 0
    ensures var s := word + rest; !IsDigit(s[0]) && s[0] != '-' && s[0] != '+' && s[0] != '.' && !IsSpace(s[0])
  {
    var s := word + rest;
    WordStarts(word);
    assert |word| >= 3 && forall i | 0 <= i < |word| :: s[i] == word[i];
    assert s[|word|] == rest[0];
    EndsNoParenthesis(rest);
    assert "nan"[0] == 'n' && "inf"[0] == "infinity"[0] == 'i' && "infinity"[3] == 'i';
    hide Ends;
    if StartsAnyCase(word, "nan") {
      assert StartsAnyCase(s, "nan");
      if |word| > 3 { OpenLength(word, rest); }
    } else {
      assert Lower(s[0]) == 'i' && !StartsAnyCase(s, "nan");
      if |word| == 8 {
        assert StartsAnyCase(word, "infinity") by { InfinityIs(word); }
      } else {
        assert StartsAnyCase(s, "inf") && Lower(s[3]) != 'i';
      }
    }
  }

  lemma {:induction false} OpenLength(word: string, rest: string)
    requires Open(word) && |word| > 4 && word[|word| - 1] == ')' && ')' !in word[4..|word| - 1]
    ensures Span((word + rest)[4..], NotClose) == |word| - 5
  {
    var inner := word[4..|word| - 1];
    assert forall i | 0 <= i < |inner| :: inner[i] in inner;
    assert (word + rest)[4..] == inner + (")" + rest);
    SpanOf(inner, ")" + rest, NotClose);
  }

  lemma InfinityIs(word: string)
    requires IsSpecial(word) && !StartsAnyCase(word, "nan") && |word| == 8
    ensures StartsAnyCase(word, "infinity")
  {}

  lemma EndsNoParenthesis(s: string)
    requires Ends(s)
    ensures s != "" && s[0] != '(' && Lower(s[0]) != 'i'
  {}

  lemma {:induction false} SpecialLength(n: Number, rest: string)
    requires n.Special? && WfNumber(n) && Ends(rest)
    ensures DoubleLength(NumberText(n) + rest) == |NumberText(n)|
    ensures ParseInt(NumberText(n) + rest, INT64_MIN, INT64_MAX) == None
  {
    var d := n.word + rest;
    Assoc(n.sign, n.word, rest);
    WordLength(n.word, rest);
    SignOf(n.sign, d);
    assert "" + d == d;
    assert All("", IsDigit);
    DigitsRead(n.sign, "", d);
    hide NanOrInf, SignLength, Ends, IsSpecial, ParseInt;
    assert Span(d, IsDigit) == 0;
  }

  predicate StartsNumber(c: char) {
    IsDigit(c) || c == '-' || c == '+' || c == '.' || Lower(c) == 'n' || Lower(c) == 'i'
  }

  lemma {:induction false} NumberStarts(n: Number)
    requires WfNumber(n)
    ensures NumberText(n) != "" && StartsNumber(NumberText(n)[0])
  {
    if n.sign != "" {
      assert NumberText(n)[0] == n.sign[0];
    } else if n.Special? {
      WordStarts(n.word);
      assert NumberText(n)[0] == n.word[0];
    } else {
      hide ExponentText, InRange, WfExponent, Lower;
      var t := Behind(n);
      assert NumberText(n) == "" + (n.whole + t) == n.whole + t;
      if n.whole == "" {
        assert n.whole + t == t;
        assert PointText(n.fraction)[0] == '.';
        assert t[0] == PointText(n.fraction)[0];
      } else {
        assert IsDigit(n.whole[0]) && (n.whole + t)[0] == n.whole[0];
      }
    }
  }

  lemma WordStarts(word: string)
    requires IsSpecial(word)
    ensures word != "" && (Lower(word[0]) == 'n' || Lower(word[0]) == 'i')
  {
    assert "nan"[0] == 'n' && "inf"[0] == "infinity"[0] == 'i';
  }

  lemma IntegerIsValue(s: string)
    requires ParseArray(s) == NoMatch && ParseString(s) == NoMatch && ParseInt64(s).Match?
    ensures ParseValue(s) == ParseInt64(s)
  {
    hide ParseArray, ParseString, ParseInt64;
  }

  lemma RealIsValue(s: string)
    requires ParseArray(s) == NoMatch && ParseString(s) == NoMatch && ParseInt64(s) == NoMatch && ParseDouble(s).Match?
    ensures ParseValue(s) == ParseDouble(s)
  {
    hide ParseArray, ParseString, ParseInt64, ParseDouble;
  }

  /** Every spelling of a number in front of the end of a list is read as what it denotes. */
  lemma {:induction false} NumberParses(ws: string, n: Number, rest: string)
    requires Ws(ws) && WfNumber(n) && Ends(rest)
    ensures ParseValue(ws + (NumberText(n) + rest)) == Match(NumberValue(n), rest)
  {
    var t := NumberText(n) + rest;
    NumberStarts(n);
    assert t[0] == NumberText(n)[0];
    assert !IsSpace(t[0]) && t[0] != '[' && t[0] != '"';
    SkipsWs(ws, t);
    OtherAlternatives(ws + t, t[0]);
    hide ParseArray, ParseString, ParseObject, ParseValue, DoubleLength, ParseInt, Skip, Ends, NumberText, WfNumber,
      IsInteger, ValueOf, Ws;
    IntegerRule(n, rest);
    if IsInteger(n) {
      IntegerIsValue(ws + t);
    } else {
      RealRule(n, rest);
      RealIsValue(ws + t);
      TakeDrop(NumberText(n), rest);
    }
  }

  /** What the integer rule says, lookahead included. */
  lemma {:induction false} IntegerRule(n: Number, rest: string)
    requires WfNumber(n) && Ends(rest)
    ensures var p := ParseInt(NumberText(n) + rest, INT64_MIN, INT64_MAX);
      if IsInteger(n) then
        p == Some((Signed(n.sign == "-", ValueOf(n.whole, 10)), rest)) && !Next(rest, '.')
      else
        p.None? || Next(p.value.1, '.')
  {
    if n.Special? {
      SpecialLength(n, rest);
    } else {
      DecimalUnfold(n, rest);
      BehindStarts(n, rest);
      hide Ends;
      DigitsRead(n.sign, n.whole, Behind(n) + rest);
      if IsInteger(n) { assert Behind(n) + rest == rest; }
    }
  }

  lemma RealRule(n: Number, rest: string)
    requires WfNumber(n) && Ends(rest)
    ensures DoubleLength(NumberText(n) + rest) == |NumberText(n)| > 0
  {
    NumberStarts(n);
    if n.Special? { SpecialLength(n, rest); } else { DecimalLength(n, rest); }
  }

  /** The words, in any mix of cases. */
  lemma {:induction false} WordsAre(a: char, b: char, c: char)
    requires a in "nN" && b in "aA" && c in "nN"
    ensures IsSpecial([a, b, c])
    ensures forall inner | ')' !in inner :: IsSpecial([a, b, c, '('] + inner + ")")
  {
    assert StartsAnyCase([a, b, c], "nan");
    forall inner | ')' !in inner ensures IsSpecial([a, b, c, '('] + inner + ")") {
      var w := [a, b, c, '('] + inner + ")";
      assert w[0] == a && w[1] == b && w[2] == c && w[3] == '(';
      assert w[4..|w| - 1] == inner;
      assert StartsAnyCase(w, "nan");
    }
  }

  lemma {:induction false} InfinityAre(w: string)
    requires |w| == 3 || |w| == 8
    requires w[0] in "iI" && w[1] in "nN" && w[2] in "fF"
    requires |w| == 8 ==> w[3] in "iI" && w[4] in "nN" && w[5] in "iI" && w[6] in "tT" && w[7] in "yY"
    ensures IsSpecial(w)
  {
    if |w| == 3 { assert StartsAnyCase(w, "inf"); } else { assert StartsAnyCase(w, "infinity"); }
  }

  // ----- Two families of them

  function SignText(n: int): string { if n < 0 then "-" else "" }

  function Magnitude(n: int): nat { if n < 0 then -n else n }

  lemma ShowIs(n: int, fraction: Option<string>)
    ensures var d := Decimal(SignText(n), Digits(Magnitude(n)), fraction, None);
      NumberText(d) == Show(n) + PointText(fraction) && Signed(d.sign == "-", ValueOf(d.whole, 10)) == n
  {
    DigitsValue(Magnitude(n));
    hide Digits, ValueOf;
    var t := PointText(fraction);
    assert t + "" == t;
    Assoc(SignText(n), Digits(Magnitude(n)), t);
    assert "" + Digits(Magnitude(n)) == Digits(Magnitude(n));
  }

  /** Every 64-bit integer is read back, and any other is a double. */
  lemma {:induction false} IntParses(ws: string, n: int, rest: string)
    requires Ws(ws) && Ends(rest)
    ensures ParseValue(ws + (Show(n) + rest))
         == Match(if -9223372036854775808 <= n <= 9223372036854775807 then JInt(n) else JDouble(Show(n)), rest)
  {
    ShowIs(n, None);
    var d := Decimal(SignText(n), Digits(Magnitude(n)), None, None);
    hide Digits, ValueOf, Show, Ends;
    assert WfNumber(d);
    hide NumberText;
    assert Show(n) + "" == Show(n);
    NumberParses(ws, d, rest);
  }

  /** A decimal point makes a number a double, also with nothing behind it. */
  lemma {:induction false} PointMakesDouble(ws: string, n: int, fraction: string, rest: string)
    requires Ws(ws) && All(fraction, IsDigit) && Ends(rest)
    ensures ParseValue(ws + (Show(n) + ("." + (fraction + rest)))) == Match(JDouble(Show(n) + "." + fraction), rest)
  {
    ShowIs(n, Some(fraction));
    var d := Decimal(SignText(n), Digits(Magnitude(n)), Some(fraction), None);
    hide Digits, ValueOf, Show, Ends;
    assert WfNumber(d);
    hide NumberText;
    NumberParses(ws, d, rest);
    Assoc(Show(n), "." + fraction, rest);
    Assoc(".", fraction, rest);
    Assoc(Show(n), ".", fraction);
  }

  // ----- Every number that is read is a printed one

  lemma {:induction false} ExponentCut(g: string) returns (x: Option<Exponent>)
    requires ExponentLength(g).Some?
    ensures x.Some? ==> WfExponent(x.value)
    ensures |ExponentText(x)| == ExponentLength(g).value && g == ExponentText(x) + g[|ExponentText(x)|..]
  {
    if g == "" || Lower(g[0]) != 'e' {
      x := None;
      assert g == "" + g[0..];
    } else {
      var found := ExponentFound(g);
      x := Some(found);
    }
  }

  lemma {:induction false} ExponentFound(g: string) returns (x: Exponent)
    requires ExponentLength(g).Some? && g != "" && Lower(g[0]) == 'e'
    ensures WfExponent(x)
    ensures var text := ExponentText(Some(x)); |text| == ExponentLength(g).value && g == text + g[|text|..]
  {
    hide Span, SignLength, IsDigit, All, ExponentLength, IsSign, Lower, ExponentText;
    var sign := SignCut(g[1..]);
    var d := g[1 + |sign|..];
    var m := Span(d, IsDigit);
    ExponentUnfold(g);
    SpanCut(d, IsDigit);
    x := Exponent(g[0], sign, d[..m]);
    assert WfExponent(x);
    hide WfExponent;
    DropDrop(g, 1, |sign|);
    ExponentTextOf(g[0], sign, d[..m], d[m..]);
    assert g == [g[0]] + g[1..];
    TakeDrop(ExponentText(Some(x)), d[m..]);
  }

  lemma ExponentTextOf(e: char, sign: string, digits: string, rest: string)
    ensures var x := Some(Exponent(e, sign, digits));
      ExponentText(x) + rest == [e] + (sign + (digits + rest)) && |ExponentText(x)| == 1 + |sign| + |digits|
  {
    Assoc([e], sign + digits, rest);
    Assoc(sign, digits, rest);
  }

  /** The text begins with the sign, the digits, the point and the exponent of a number. */
  predicate Begins(s: string, n: Number) {
    n.Decimal? && IsSign(n.sign) && All(n.whole, IsDigit) && NumberText(n) <= s &&
    (n.fraction.Some? ==> All(n.fraction.value, IsDigit)) &&
    (n.exponent.Some? ==> WfExponent(n.exponent.value)) &&
    (n.whole == "" ==> n.fraction.Some? && n.fraction.value != "")
  }

  /** A number that is not a word. */
  lemma {:induction false} DecimalCut(s: string) returns (n: Number)
    requires DoubleLength(s) > 0
    requires var d := s[SignLength(s)..]; Span(d, IsDigit) > 0 || NanOrInf(d) == 0
    ensures Begins(s, n) && |NumberText(n)| == DoubleLength(s)
  {
    hide *;
    LengthIs(s);
    var sign := SignCut(s);
    var d := s[|sign|..];
    var k := Span(d, IsDigit);
    SpanCut(d, IsDigit);
    var t := d[k..];
    var fraction := PointCut(t);
    var g := t[PointLength(t)..];
    var x := ExponentCut(g);
    n := Decimal(sign, d[..k], fraction, x);
    BeginsWith(s, n, g[|ExponentText(x)|..]);
  }

  lemma {:induction false} BeginsWith(s: string, n: Number, rest: string)
    requires n.Decimal? && IsSign(n.sign) && All(n.whole, IsDigit)
    requires (n.fraction.Some? ==> All(n.fraction.value, IsDigit)) &&
             (n.exponent.Some? ==> WfExponent(n.exponent.value))
    requires n.whole != "" || |PointText(n.fraction)| > 1
    requires s == n.sign + (n.whole + (PointText(n.fraction) + (ExponentText(n.exponent) + rest)))
    ensures Begins(s, n)
    ensures |NumberText(n)| == |n.sign| + |n.whole| + |PointText(n.fraction)| + |ExponentText(n.exponent)|
  {
    hide WfExponent, IsSign, All, ExponentText, Behind, NumberText;
    DecimalUnfold(n, rest);
    TakeDrop(NumberText(n), rest);
  }

  /** The point and the digits behind it. */
  lemma {:induction false} PointCut(t: string) returns (fraction: Option<string>)
    ensures fraction.Some? ==> All(fraction.value, IsDigit)
    ensures |PointText(fraction)| == PointLength(t) && t == PointText(fraction) + t[PointLength(t)..]
    ensures fraction.Some? <==> t != "" && t[0] == '.'
  {
    var f := PointLength(t);
    if f == 0 {
      fraction := None;
    } else {
      SpanCut(t[1..], IsDigit);
      fraction := Some(t[1..][..f - 1]);
      hide Span, All;
      DropDrop(t, 1, f - 1);
      assert t == "." + t[1..];
      Assoc(".", t[1..][..f - 1], t[f..]);
    }
  }

  lemma {:induction false} WordCut(d: string) returns (word: string)
    requires NanOrInf(d) > 0
    ensures IsSpecial(word) && |word| == NanOrInf(d) && d == word + d[|word|..]
  {
    word := d[..NanOrInf(d)];
    assert forall i | 0 <= i < |word| :: word[i] == d[i];
    if StartsAnyCase(d, "nan") && |d| > 3 && d[3] == '(' {
      OpenWord(d);
    } else {
      hide Span, Lower;
    }
  }

  /** A word with a text in parentheses. */
  lemma {:induction false} OpenWord(d: string)
    requires NanOrInf(d) > 0 && StartsAnyCase(d, "nan") && |d| > 3 && d[3] == '('
    ensures IsSpecial(d[..NanOrInf(d)])
  {
    var m := Span(d[4..], NotClose);
    SpanCut(d[4..], NotClose);
    var word := d[..4 + m + 1];
    assert NanOrInf(d) == 4 + m + 1 && !NotClose(d[4..][m]);
    assert d[4..][m] == d[4 + m];
    hide Span, NanOrInf, Lower;
    assert word[|word| - 1] == ')' && word[3] == '(';
    assert word[4..|word| - 1] == d[4..][..m];
    assert ')' !in d[4..][..m];
    hide All;
    assert forall i | 0 <= i < 3 :: word[i] == d[i];
    assert StartsAnyCase(word, "nan");
  }

  /** The integer rule. */
  lemma {:induction false} IntegerRead(s: string) returns (ws: string, n: Number)
    requires ParseInt64(s).Match?
    ensures Ws(ws) && WfNumber(n) && s == ws + (NumberText(n) + ParseInt64(s).rest)
    ensures ParseInt64(s).value == NumberValue(n)
  {
    ws := SkipCut(s);
    var t := Skip(s);
    hide Skip, Ws, ParseInt;
    n := SignedRead(t);
  }

  lemma {:induction false} SignedRead(t: string) returns (n: Number)
    requires ParseInt(t, INT64_MIN, INT64_MAX).Some?
    ensures var r := ParseInt(t, INT64_MIN, INT64_MAX).value;
      WfNumber(n) && t == NumberText(n) + r.1 && NumberValue(n) == JInt(r.0)
  {
    var sign := SignCut(t);
    var d := t[|sign|..];
    var k := Span(d, IsDigit);
    SpanCut(d, IsDigit);
    assert t[0..] == t;
    var v := Signed(sign == "-", ValueOf(d[..k], 10));
    assert ParseInt(t, INT64_MIN, INT64_MAX) == Some((v, d[k..])) && k > 0 by { hide ValueOf, Span; }
    hide Span, ValueOf, ParseInt, SignLength, All, IsSign;
    n := Decimal(sign, d[..k], None, None);
    assert WfNumber(n) && NumberValue(n) == JInt(v);
    hide NumberText, NumberValue, WfNumber, Behind;
    DecimalUnfold(n, d[k..]);
    assert "" + d[k..] == d[k..];
  }

  /** The real-number rule, where the integer rule does not apply and a list ends behind it. */
  lemma {:induction false} RealRead(s: string) returns (ws: string, n: Number)
    requires ParseInt64(s) == NoMatch && ParseDouble(s).Match? && Ends(ParseDouble(s).rest)
    ensures Ws(ws) && WfNumber(n) && s == ws + (NumberText(n) + ParseDouble(s).rest)
    ensures ParseDouble(s).value == NumberValue(n)
  {
    ws := SkipCut(s);
    var t := Skip(s);
    var m, d := DoubleLength(t), t[SignLength(t)..];
    assert ParseDouble(s) == Match(JDouble(t[..m]), t[m..]);
    if Span(d, IsDigit) == 0 && NanOrInf(d) > 0 {
      var sign := SignCut(t);
      var word := WordCut(d);
      n := Special(sign, word);
      assert m == |sign| + |word|;
      hide Skip, Span, NanOrInf, IsSpecial, Ends, DoubleLength, ParseDouble, IsSign, SignLength;
      Assoc(sign, word, d[|word|..]);
      TakeDrop(sign + word, d[|word|..]);
    } else {
      n := DecimalCut(t);
      hide Skip, Span, NanOrInf, DoubleLength, ParseDouble, SignLength, ParseInt64, Ends, Begins;
      BeginsUnfold(t, n);
      NoExponent(s, n);
    }
  }

  lemma BeginsUnfold(t: string, n: Number)
    requires Begins(t, n)
    ensures var m := |NumberText(n)|; m <= |t| && t[..m] == NumberText(n) && t == NumberText(n) + t[m..]
  {
    hide NumberText;
  }

  /** The integer rule came first: what it would have taken is no real number. */
  lemma {:induction false} NoExponent(s: string, n: Number)
    requires ParseInt64(s) == NoMatch && Begins(Skip(s), n) && Ends(Skip(s)[|NumberText(n)|..])
    ensures WfNumber(n) && !IsInteger(n)
  {
    var t := Skip(s);
    var rest := t[|NumberText(n)|..];
    var u := Behind(n) + rest;
    DecimalUnfold(n, rest);
    EndsNoDigit(rest);
    BeginsUnfold(t, n);
    if n.fraction.None? && n.exponent.Some? { assert u[0] == ExponentText(n.exponent)[0] == n.exponent.value.e; }
    if n.fraction.None? && n.exponent.None? { assert u == "" + rest == rest; }
    assert n.fraction.None? ==> u != "" && !IsDigit(u[0]) && !Next(u, '.') by { NextAtOnce(u, n.exponent); }
    hide Ends, Skip, NumberText, Behind, PointText, ExponentText, WfExponent, ParseInt;
    if n.whole != "" && n.fraction.None? { DigitsRead(n.sign, n.whole, u); }
  }

  lemma NextAtOnce(u: string, x: Option<Exponent>)
    ensures u != "" && x.Some? && WfExponent(x.value) && u[0] == x.value.e ==> !IsDigit(u[0]) && !Next(u, '.')
  {}
}
