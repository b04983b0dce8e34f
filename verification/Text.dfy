/**
 Strings, spans and numbers, shared by every parser of the model.

 A `char` stands for one byte of the source's `std::string`; the few results that need a
 character to fit a byte say so with `IsBytes`.
 */
module Text {
  datatype Option<+T> = None | Some(value: T)

  /** The outcome of one grammar rule: a match with the text after it, a plain failure that the
      caller may recover from, or a thrown expectation failure. */
  datatype Parse<+T> = Match(value: T, rest: string) | NoMatch | Threw

  const CRLF: string := "\r\n"
  const EOL2: string := "\r\n\r\n"

  predicate IsDigit(c: char) { '0' <= c <= '9' }
  predicate IsHex(c: char) { '0' <= c <= '9' || 'a' <= c <= 'f' || 'A' <= c <= 'F' }
  predicate IsSpace(c: char) { c == ' ' || '\t' <= c <= '\r' }
  predicate NotCr(c: char) { c != '\r' }
  predicate NotLf(c: char) { c != '\n' }
  predicate NotAmp(c: char) { c != '&' }
  predicate NotEq(c: char) { c != '=' }

  predicate All(s: string, p: char -> bool) { forall i | 0 <= i < |s| :: p(s[i]) }

  predicate IsBytes(s: string) { forall i | 0 <= i < |s| :: s[i] as int < 256 }

  /** Length of the longest prefix whose characters all satisfy `p`: what `*p` matches. */
  function Span(s: string, p: char -> bool): (n: nat)
    ensures n <= |s|
    ensures All(s[..n], p)
    ensures n < |s| ==> !p(s[n])
  {
    if s == [] || !p(s[0]) then 0
    else
      var n := 1 + Span(s[1..], p);
      assert s[..n] == [s[0]] + s[1..][..n - 1];
      n
  }

  lemma SpanCut(s: string, p: char -> bool)
    ensures var n := Span(s, p); All(s[..n], p) && s == s[..n] + s[n..]
  {}

  /** Being free of a character, said twice. */
  lemma Free(s: string)
    ensures '\r' !in s <==> All(s, NotCr)
    ensures '\n' !in s <==> All(s, NotLf)
    ensures '&' !in s <==> All(s, NotAmp)
    ensures '=' !in s <==> All(s, NotEq)
  {
    assert forall i | 0 <= i < |s| :: s[i] in s;
  }

  /** The digits and the whitespace, listed. */
  lemma DigitsAndSpaces(c: char)
    ensures IsDigit(c) <==> c in "0123456789"
    ensures IsSpace(c) <==> c in [' ', '\t', '\n', 11 as char, 12 as char, '\r']
  {
    if IsDigit(c) {
      var i := c as int - '0' as int;
      assert "0123456789"[i] == c by { DigitAt(i); }
    }
  }

  lemma DigitAt(i: nat)
    requires i < 10
    ensures "0123456789"[i] as int == '0' as int + i
  {
    var d := "0123456789";
    assert d[0] == '0' && d[1] == '1' && d[2] == '2' && d[3] == '3' && d[4] == '4';
    assert d[5] == '5' && d[6] == '6' && d[7] == '7' && d[8] == '8' && d[9] == '9';
  }

  lemma SpanOf(a: string, b: string, p: char -> bool)
    requires All(a, p)
    requires b == [] || !p(b[0])
    ensures Span(a + b, p) == |a|
    ensures (a + b)[..|a|] == a && (a + b)[|a|..] == b
  {
    var n := Span(a + b, p);
    assert forall i | 0 <= i < n :: p((a + b)[..n][i]);
    assert forall i | 0 <= i < |a| :: (a + b)[i] == a[i] && p(a[i]);
    assert b != [] ==> (a + b)[|a|] == b[0];
  }

  lemma TakeDrop(a: string, b: string)
    ensures a <= a + b && (a + b)[..|a|] == a && (a + b)[|a|..] == b
  {}

  lemma DropDrop(s: string, i: nat, j: nat)
    requires i + j <= |s|
    ensures s[i..][j..] == s[i + j..]
  {}

  lemma DropTwo(a: string, b: string, c: string)
    ensures (a + (b + c))[|a|..] == b + c && (a + (b + c))[|a| + |b|..] == c
  {}

  lemma Assoc(a: string, b: string, c: string)
    ensures a + b + c == a + (b + c)
  {}

  lemma Assoc4(a: string, b: string, c: string, d: string)
    ensures a + b + c + d == a + (b + (c + d))
  {}

  lemma Assoc5(a: string, b: string, c: string, d: string, e: string)
    ensures a + b + c + d + e == a + (b + (c + d + e))
  {}

  /** Carriage returns, and only those, become line feeds: `std::replace`. */
  function CrToLf(s: string): (r: string)
    ensures |r| == |s|
    ensures forall i | 0 <= i < |s| :: r[i] == if s[i] == '\r' then '\n' else s[i]
  {
    if s == "" then "" else [if s[0] == '\r' then '\n' else s[0]] + CrToLf(s[1..])
  }

  lemma CrToLfOne(c: char)
    ensures CrToLf([c]) == [if c == '\r' then '\n' else c]
  {}

  lemma {:induction false} CrToLfAppend(a: string, b: string)
    ensures CrToLf(a + b) == CrToLf(a) + CrToLf(b)
  {
    hide CrToLf;
    var s := CrToLf(a + b);
    assert forall i | 0 <= i < |a| :: s[i] == CrToLf(a)[i];
    assert forall i | 0 <= i < |b| :: s[|a| + i] == CrToLf(b)[i] by {
      forall i | 0 <= i < |b| ensures s[|a| + i] == CrToLf(b)[i] { assert (a + b)[|a| + i] == b[i]; }
    }
    assert s[..|a|] == CrToLf(a) && s[|a|..] == CrToLf(b);
  }

  /** Insertion of pairs into a `std::map`: the first value of a name stays. */
  function FirstWins<V>(m: map<string, V>, ps: seq<(string, V)>): map<string, V>
    decreases |ps|
  {
    if ps == [] then m
    else FirstWins(if ps[0].0 in m then m else m[ps[0].0 := ps[0].1], ps[1..])
  }

  /** What a map holds under a key. */
  function Find<K, V>(m: map<K, V>, k: K): Option<V> { if k in m then Some(m[k]) else None }

  /** Where `asio::async_read_until` stops waiting: the delimiter is somewhere in the buffer. */
  predicate Contains(s: string, d: string) {
    exists i | 0 <= i <= |s| :: At(s, i, d)
  }

  predicate At(s: string, i: nat, d: string) {
    i + |d| <= |s| && s[i..i + |d|] == d
  }

  function DigitOf(c: char): (d: nat)
    ensures d < 16
  {
    if '0' <= c <= '9' then c as int - '0' as int
    else if 'a' <= c <= 'f' then c as int - 'a' as int + 10
    else if 'A' <= c <= 'F' then c as int - 'A' as int + 10
    else 0
  }

  /** The number a run of digits denotes. */
  function ValueOf(s: string, base: nat): nat {
    if s == [] then 0 else base * ValueOf(s[..|s| - 1], base) + DigitOf(s[|s| - 1])
  }

  // ----- Hexadecimal numbers, printed

  const LOWER_HEX: string := "0123456789abcdef"
  const UPPER_HEX: string := "0123456789ABCDEF"

  function HexChar(d: nat, upper: bool): char
    requires d < 16
  {
    if upper then UPPER_HEX[d] else LOWER_HEX[d]
  }

  /** `n` in as many digits as there are flags, each digit in the case its flag says. */
  function HexText(n: nat, upper: seq<bool>): (s: string)
    ensures |s| == |upper|
  {
    if upper == [] then ""
    else HexText(n / 16, upper[..|upper| - 1]) + [HexChar(n % 16, upper[|upper| - 1])]
  }

  /** `n` has at most `width` digits. */
  predicate Fits(n: nat, width: nat) { if width == 0 then n == 0 else Fits(n / 16, width - 1) }

  lemma HexChars(d: nat)
    requires d < 16
    ensures IsHex(LOWER_HEX[d]) && DigitOf(LOWER_HEX[d]) == d && IsHex(UPPER_HEX[d]) && DigitOf(UPPER_HEX[d]) == d
  {
    var l, u := LOWER_HEX, UPPER_HEX;
    assert l[0] == u[0] == '0' && l[1] == u[1] == '1' && l[2] == u[2] == '2' && l[3] == u[3] == '3';
    assert l[4] == u[4] == '4' && l[5] == u[5] == '5' && l[6] == u[6] == '6' && l[7] == u[7] == '7';
    assert l[8] == u[8] == '8' && l[9] == u[9] == '9';
    assert l[10] == 'a' && l[11] == 'b' && l[12] == 'c' && l[13] == 'd' && l[14] == 'e' && l[15] == 'f';
    assert u[10] == 'A' && u[11] == 'B' && u[12] == 'C' && u[13] == 'D' && u[14] == 'E' && u[15] == 'F';
  }

  /** Whatever the cases and however many zeros lead, the text denotes the number. */
  lemma {:induction false} HexValue(n: nat, upper: seq<bool>)
    requires Fits(n, |upper|)
    ensures All(HexText(n, upper), IsHex) && ValueOf(HexText(n, upper), 16) == n
  {
    if upper != [] {
      var front := HexText(n / 16, upper[..|upper| - 1]);
      HexValue(n / 16, upper[..|upper| - 1]);
      HexChars(n % 16);
      var s := HexText(n, upper);
      assert s == front + [s[|s| - 1]] && s[..|s| - 1] == front;
      hide DigitOf, IsHex;
    }
  }

  /** And every text of hexadecimal digits is such a number. */
  lemma {:induction false} HexRead(s: string) returns (upper: seq<bool>)
    requires All(s, IsHex)
    ensures Fits(ValueOf(s, 16), |upper|) && s == HexText(ValueOf(s, 16), upper)
  {
    if s == "" {
      upper := [];
    } else {
      var n, front, c := ValueOf(s, 16), s[..|s| - 1], s[|s| - 1];
      var some := HexRead(front);
      HexChars(DigitOf(c));
      assert IsHex(c);
      var up := 'A' <= c <= 'F';
      assert c == HexChar(DigitOf(c), up) by { SameHex(c); }
      hide DigitOf, IsHex, HexChar;
      upper := some + [up];
      assert n / 16 == ValueOf(front, 16) && n % 16 == DigitOf(c);
      assert upper[..|upper| - 1] == some;
      assert s == front + [c];
    }
  }

  lemma SameHex(c: char)
    requires IsHex(c)
    ensures c == HexChar(DigitOf(c), 'A' <= c <= 'F')
  {
    HexChars(DigitOf(c));
  }

  // ----- Decimal numbers, printed

  function Digits(n: nat): (s: string)
    ensures s != [] && All(s, IsDigit)
  {
    if n < 10 then [('0' as int + n) as char]
    else Digits(n / 10) + [('0' as int + n % 10) as char]
  }

  function Show(n: int): string {
    if n < 0 then "-" + Digits(-n) else Digits(n)
  }

  lemma {:induction false} DigitsValue(n: nat)
    ensures ValueOf(Digits(n), 10) == n
  {
    if n >= 10 {
      DigitsValue(n / 10);
      var s := Digits(n);
      assert s[..|s| - 1] == Digits(n / 10);
    } else {
      assert Digits(n)[..0] == [];
      assert ValueOf([], 10) == 0;
    }
  }

  /** Spirit's signed decimal parser: an optional sign, then every digit there is; a value out of
      range is a failed match. */
  function ParseInt(s: string, lo: int, hi: int): (r: Option<(int, string)>)
    ensures r.Some? ==> |r.value.1| < |s| && lo <= r.value.0 <= hi
  {
    if s != [] && (s[0] == '-' || s[0] == '+') then ParseDigits(s[0] == '-', s[1..], lo, hi)
    else ParseDigits(false, s, lo, hi)
  }

  function Signed(negative: bool, n: nat): int { if negative then 0 - n else n }

  function ParseDigits(negative: bool, s: string, lo: int, hi: int): (r: Option<(int, string)>)
    ensures r.Some? ==> |r.value.1| < |s| && lo <= r.value.0 <= hi
  {
    var n := Span(s, IsDigit);
    var v := Signed(negative, ValueOf(s[..n], 10));
    if n == 0 || !(lo <= v <= hi) then None else Some((v, s[n..]))
  }

  /** A spelling of an integer: an optional sign and digits. */
  predicate Spells(code: string, n: int) {
    var signed := code != "" && (code[0] == '-' || code[0] == '+');
    var d := if signed then code[1..] else code;
    d != "" && All(d, IsDigit) && n == if signed && code[0] == '-' then 0 - ValueOf(d, 10) else ValueOf(d, 10)
  }

  /** The parser reads every spelling of a number in its range, and none of any other. */
  lemma {:induction false} SpelledParses(code: string, n: int, rest: string, lo: int, hi: int)
    requires Spells(code, n) && (rest == "" || !IsDigit(rest[0]))
    ensures ParseInt(code + rest, lo, hi) == if lo <= n <= hi then Some((n, rest)) else None
  {
    var s := code + rest;
    if code[0] == '-' || code[0] == '+' {
      SpanOf(code[1..], rest, IsDigit);
      assert s[1..] == code[1..] + rest;
    } else {
      assert IsDigit(code[0]);
      SpanOf(code, rest, IsDigit);
    }
    hide Span, ValueOf;
  }

  /** What it reads is a spelling. */
  lemma {:induction false} IntRead(s: string, lo: int, hi: int) returns (code: string)
    requires ParseInt(s, lo, hi).Some?
    ensures var r := ParseInt(s, lo, hi).value;
      Spells(code, r.0) && s == code + r.1 && (r.1 == "" || !IsDigit(r.1[0])) && lo <= r.0 <= hi
  {
    var signed := s != "" && (s[0] == '-' || s[0] == '+');
    var d := if signed then s[1..] else s;
    var n := Span(d, IsDigit);
    var digits := d[..n];
    assert All(digits, IsDigit) && digits != "" && ParseInt(s, lo, hi).value.1 == d[n..];
    code := if signed then [s[0]] + digits else digits;
    hide Span, ValueOf;
    assert signed ==> code[1..] == digits;
    assert !signed ==> code[0] == s[0];
    assert d == digits + d[n..];
    assert s == code + d[n..];
  }

  const TWO64: int := 0x1_0000_0000_0000_0000

  /** `boost::lexical_cast<size_t>`: the whole text is an optionally signed run of digits below
      2^64, a minus sign wrapping around; anything else throws (`None`). */
  function LexicalSize(s: string): (r: Option<nat>)
    ensures r.Some? ==> r.value < TWO64
  {
    var d := if s != [] && (s[0] == '-' || s[0] == '+') then s[1..] else s;
    if d == [] || !All(d, IsDigit) || ValueOf(d, 10) >= TWO64 then None
    else if s[0] == '-' then Some((TWO64 - ValueOf(d, 10)) % TWO64)
    else Some(ValueOf(d, 10))
  }

  lemma DigitsAreLexical(n: nat)
    requires n < TWO64
    ensures LexicalSize(Digits(n)) == Some(n)
  {
    DigitsValue(n);
    assert IsDigit(Digits(n)[0]);
  }

  /** It converts exactly the spellings of magnitudes below 2^64, and a negative one to its complement. */
  lemma {:induction false} LexicalExactly(s: string, n: int)
    requires Spells(s, n)
    ensures LexicalSize(s) == if -18446744073709551616 < n < 18446744073709551616
                              then Some(n % 18446744073709551616) else None
  {
    var signed := s != "" && (s[0] == '-' || s[0] == '+');
    var d := if signed then s[1..] else s;
    var v := ValueOf(d, 10);
    if !signed { assert IsDigit(s[0]); }
    hide ValueOf;
    if v == 0 { assert TWO64 % TWO64 == 0; }
  }

  lemma {:induction false} LexicalSpells(s: string)
    requires LexicalSize(s).Some?
    ensures exists n :: Spells(s, n)
  {
    var signed := s != "" && (s[0] == '-' || s[0] == '+');
    var d := if signed then s[1..] else s;
    assert Spells(s, if signed && s[0] == '-' then 0 - ValueOf(d, 10) else ValueOf(d, 10));
  }

  /** Text that consists of whole lines, each closed by CRLF. */
  function Lines(ls: seq<string>): string {
    if ls == [] then "" else ls[0] + CRLF + Lines(ls[1..])
  }

  predicate PlainLine(l: string) { l != [] && All(l, NotCr) }

  predicate PlainLines(ls: seq<string>) { forall l | l in ls :: PlainLine(l) }

  /** In a block of lines closed by a blank line, the first double line end is the block's own end,
      whatever follows it. */
  lemma {:induction false} Eol2AtEnd(ls: seq<string>, tail: string, i: nat)
    requires PlainLines(ls)
    requires i + 4 <= |Lines(ls) + CRLF + tail| && (Lines(ls) + CRLF + tail)[i..i + 4] == EOL2
    ensures i + 4 >= |Lines(ls)| + 2
  {
    if ls != [] {
      var l, s := ls[0], Lines(ls) + CRLF + tail;
      var s' := Lines(ls[1..]) + CRLF + tail;
      assert PlainLine(l);
      assert s == l + CRLF + s';
      assert forall j | 0 <= j < |l| :: NotCr(l[j]) && s[j] == l[j] != '\r';
      assert |ls| > 1 ==> PlainLine(ls[1]) && s'[0] == ls[1][0] && NotCr(s'[0]);
      assert s[|l| + 1] == '\n' && (|ls| > 1 ==> s[|l| + 2] == s'[0]);
      assert s[i] == s[i..i + 4][0] == '\r' && s[i + 2] == s[i..i + 4][2] == '\r';
      if i >= |l| + 2 {
        var j := i - (|l| + 2);
        assert s'[j..j + 4] == s[i..i + 4];
        Eol2AtEnd(ls[1..], tail, j);
      } else {
        assert i == |l|;
        assert |ls| == 1;
      }
    }
  }

  /** So a buffer of that text holds a double line end exactly when it holds the whole block. */
  lemma Eol2Arrives(ls: seq<string>, tail: string, buf: string, future: string)
    requires PlainLines(ls) && ls != []
    requires buf + future == Lines(ls) + CRLF + tail
    ensures Contains(buf, EOL2) <==> |buf| >= |Lines(ls)| + 2
  {
    var s := Lines(ls) + CRLF + tail;
    if Contains(buf, EOL2) {
      var i :| 0 <= i <= |buf| && At(buf, i, EOL2);
      assert s[i..i + 4] == buf[i..i + 4];
      Eol2AtEnd(ls, tail, i);
    }
    if |buf| >= |Lines(ls)| + 2 {
      LinesEnd(ls);
      var i := |Lines(ls)| - 2;
      assert buf[i..i + 4] == (buf + future)[i..i + 4];
      assert s[i..i + 4] == Lines(ls)[i..] + CRLF;
      assert At(buf, i, EOL2);
    }
  }

  lemma {:induction false} LinesEnd(ls: seq<string>)
    requires ls != []
    ensures |Lines(ls)| >= 2 && Lines(ls)[|Lines(ls)| - 2..] == CRLF
  {
    if |ls| == 1 {
      assert Lines(ls) == ls[0] + CRLF;
    } else {
      LinesEnd(ls[1..]);
      var t := Lines(ls[1..]);
      assert Lines(ls) == (ls[0] + CRLF) + t;
      assert Lines(ls)[|Lines(ls)| - 2..] == t[|t| - 2..];
    }
  }

  /** A buffer of a line (without inner line feeds) and what follows it holds a CRLF exactly when it
      holds the whole line. */
  lemma CrlfArrives(line: string, tail: string, buf: string, future: string)
    requires All(line, NotLf)
    requires buf + future == line + CRLF + tail
    ensures Contains(buf, CRLF) <==> |buf| >= |line| + 2
  {
    var s := line + CRLF + tail;
    assert forall j | 0 <= j < |line| :: NotLf(line[j]) && s[j] == line[j];
    if Contains(buf, CRLF) {
      var i :| 0 <= i <= |buf| && At(buf, i, CRLF);
      assert (buf + future)[i + 1] == buf[i + 1] == buf[i..i + 2][1] == '\n';
    }
    if |buf| >= |line| + 2 {
      var i := |line|;
      assert buf[i..i + 2] == s[i..i + 2] == CRLF;
      assert At(buf, i, CRLF);
    }
  }
}
