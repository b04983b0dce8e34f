/**
 The three grammar expressions of the HTTP client: the response head, the chunk size line and
 the parameter list, together with what they read back from a printed text.
 */
module HttpParse {
  import opened Text

  predicate NameChar(c: char) { c != '\r' && c != ':' }

  datatype Head = Head(status: int, reason: string, fields: map<string, string>)

  const INT_MIN: int := -0x8000_0000
  const INT_MAX: int := 0x7fff_ffff

  function ParseStatusLine(s: string): (r: Parse<(int, string)>)
    ensures r.Match? ==> |r.rest| < |s|
  {
    if !("HTTP/" <= s) then NoMatch
    else
      var a := s[5..];
      if |a| < 4 || !IsDigit(a[0]) || a[1] != '.' || !IsDigit(a[2]) || a[3] != ' ' then Threw
      else ParseStatus(a[4..])
  }

  /** The status code and the reason phrase. */
  function ParseStatus(s: string): (r: Parse<(int, string)>)
    ensures r.Match? ==> |r.rest| < |s|
  {
    match ParseInt(s, INT_MIN, INT_MAX)
    case None => Threw
    case Some((status, b)) =>
      if b == [] || b[0] != ' ' then Threw
      else
        var c := b[1..];
        var n := Span(c, NotCr);
        var d := c[n..];
        if n == 0 || !(CRLF <= d) then Threw else Match((status, c[..n]), d[2..])
  }

  /** The field lines: stops at the first line that starts no field name and demands CRLF there. */
  function ParseFields(s: string, acc: map<string, string>): (r: Parse<map<string, string>>)
    ensures r.Match? ==> |r.rest| < |s|
    ensures !r.NoMatch?
    decreases |s|
  {
    var n := Span(s, NameChar);
    var a := s[n..];
    if n == 0 then
      if CRLF <= s then Match(acc, s[2..]) else Threw
    else if !(": " <= a) then Threw
    else
      var m := Span(a[2..], NotCr);
      var b := a[2 + m..];
      if m == 0 || !(CRLF <= b) then Threw
      else ParseFields(b[2..], FirstWins(acc, [(s[..n], a[2..2 + m])]))
  }

  /** `parse_header`: a text that does not start with `HTTP/` silently keeps status 0 and an empty
      reason and is read as field lines from its first character. */
  function ParseHeader(s: string): (r: Parse<Head>)
    ensures r.Match? ==> |r.rest| < |s|
    ensures !r.NoMatch?
  {
    match ParseStatusLine(s)
    case Threw => Threw
    case NoMatch => WithFields((0, ""), ParseFields(s, map[]))
    case Match(status, rest) => WithFields(status, ParseFields(rest, map[]))
  }

  function WithFields(status: (int, string), fields: Parse<map<string, string>>): Parse<Head> {
    if fields.Match? then Match(Head(status.0, status.1, fields.value), fields.rest) else Threw
  }

  const CHUNK_LIMIT: int := 0x1_0000_0000

  /** `parse_chunk_size`: Spirit's `hex` is a 32-bit number, so a text without hexadecimal digits and
      a number that does not fit both match nothing; nothing is consumed and the size stays 0. */
  function ParseChunkSize(s: string): (r: Parse<nat>)
    ensures r.Match? ==> |r.rest| <= |s| && (r.rest == s ==> r.value == 0)
    ensures !r.NoMatch?
  {
    var h := Span(s, IsHex);
    if h == 0 || ValueOf(s[..h], 16) >= CHUNK_LIMIT then Match(0, s)
    else
      var t := s[h..];
      var e := Span(t, NotLf);
      if e == |t| then Threw else Match(ValueOf(s[..h], 16), t[e..][1..])
  }

  /** `split_params`: name, equals sign, value and a closing ampersand, as often as they match. */
  function SplitParams(s: string, acc: map<string, string>): map<string, string>
    decreases |s|
  {
    var n := Span(s, NotEq);
    if n == 0 || n == |s| then acc
    else
      var a := s[n + 1..];
      var m := Span(a, NotAmp);
      if m == 0 || m == |a| then acc
      else SplitParams(a[m + 1..], FirstWins(acc, [(s[..n], a[..m])]))
  }

  // ----- The response head, printed

  predicate WfField(f: (string, string)) {
    f.0 != [] && f.1 != [] && '\r' !in f.0 && ':' !in f.0 && '\r' !in f.1
  }

  lemma FieldIs(f: (string, string))
    ensures WfField(f) <==> f.0 != [] && f.1 != [] && All(f.0, NameChar) && All(f.1, NotCr)
  {
    Free(f.1);
    assert forall i | 0 <= i < |f.0| :: f.0[i] in f.0;
  }

  predicate WfFields(fs: seq<(string, string)>) { forall f | f in fs :: WfField(f) }

  function FieldLines(fs: seq<(string, string)>): (ls: seq<string>)
    ensures |ls| == |fs|
  {
    if fs == [] then [] else [fs[0].0 + ": " + fs[0].1] + FieldLines(fs[1..])
  }

  /** `code` is any spelling of the status. */
  datatype StatusLine = StatusLine(major: char, minor: char, status: int, reason: string, code: string)

  predicate WfStatus(l: StatusLine) {
    l.major in "0123456789" && l.minor in "0123456789" && -2147483648 <= l.status <= 2147483647 &&
    Spells(l.code, l.status) && l.reason != [] && '\r' !in l.reason
  }

  function PrintStatus(l: StatusLine): string {
    "HTTP/" + [l.major, '.', l.minor, ' '] + l.code + " " + l.reason
  }

  function HeadLines(l: StatusLine, fs: seq<(string, string)>): seq<string> {
    [PrintStatus(l)] + FieldLines(fs)
  }

  lemma {:induction false} FieldLinesArePlain(fs: seq<(string, string)>)
    requires WfFields(fs)
    ensures PlainLines(FieldLines(fs))
  {
    if fs != [] {
      FieldLinesArePlain(fs[1..]);
      assert WfField(fs[0]);
      FieldIs(fs[0]);
    }
  }

  lemma HeadLinesArePlain(l: StatusLine, fs: seq<(string, string)>)
    requires WfStatus(l) && WfFields(fs)
    ensures PlainLines(HeadLines(l, fs))
  {
    FieldLinesArePlain(fs);
    Free(l.reason);
    DigitsAndSpaces(l.major);
    DigitsAndSpaces(l.minor);
    assert All(l.code, NotCr) by {
      var d := if l.code[0] == '-' || l.code[0] == '+' then l.code[1..] else l.code;
      assert forall i | 0 <= i < |d| :: IsDigit(d[i]);
      assert |d| < |l.code| ==> forall i | 1 <= i < |l.code| :: l.code[i] == d[i - 1];
    }
    assert PlainLine(PrintStatus(l));
  }

  lemma {:induction false} FieldsParse(fs: seq<(string, string)>, tail: string, acc: map<string, string>)
    requires WfFields(fs)
    ensures ParseFields(Lines(FieldLines(fs)) + CRLF + tail, acc) == Match(FirstWins(acc, fs), tail)
  {
    var s := Lines(FieldLines(fs)) + CRLF + tail;
    if fs == [] {
      assert s == CRLF + tail;
      assert Span(s, NameChar) == 0;
    } else {
      var f := fs[0];
      assert WfField(f);
      var s' := Lines(FieldLines(fs[1..])) + CRLF + tail;
      FieldsParse(fs[1..], tail, FirstWins(acc, [f]));
      FieldLinesUnfold(fs, tail);
      FieldStep(f, s', acc);
    }
  }

  lemma {:induction false} FieldLinesUnfold(fs: seq<(string, string)>, tail: string)
    requires fs != []
    ensures Lines(FieldLines(fs)) + CRLF + tail
         == fs[0].0 + (": " + (fs[0].1 + (CRLF + (Lines(FieldLines(fs[1..])) + CRLF + tail))))
  {
    var f, more := fs[0], Lines(FieldLines(fs[1..]));
    var line := f.0 + ": " + f.1;
    assert FieldLines(fs)[1..] == FieldLines(fs[1..]);
    Assoc5(line, CRLF, more, CRLF, tail);
    Assoc4(f.0, ": ", f.1, CRLF + (more + CRLF + tail));
  }

  lemma FieldStep(f: (string, string), s: string, acc: map<string, string>)
    requires WfField(f)
    ensures ParseFields(f.0 + (": " + (f.1 + (CRLF + s))), acc) == ParseFields(s, FirstWins(acc, [f]))
  {
    FieldIs(f);
    var c := CRLF + s;
    var b := f.1 + c;
    var a := ": " + b;
    SpanOf(f.0, a, NameChar);
    TakeDrop(": ", b);
    SpanOf(f.1, c, NotCr);
    TakeDrop(CRLF, s);
    var all := f.0 + a;
    assert all[..|f.0|] == f.0 && all[|f.0|..] == a;
    assert a[2..] == b && b[..|f.1|] == f.1 && b[|f.1|..] == c && c[2..] == s;
    assert a[2..2 + |f.1|] == f.1 && a[2 + |f.1|..] == c;
  }

  lemma {:induction false} StatusParses(l: StatusLine, rest: string)
    requires WfStatus(l)
    ensures ParseStatusLine(PrintStatus(l) + (CRLF + rest)) == Match((l.status, l.reason), rest)
  {
    var d := CRLF + rest;
    var t := l.code + (" " + (l.reason + d));
    var v := [l.major, '.', l.minor, ' '];
    assert PrintStatus(l) + d == "HTTP/" + (v + t) by {
      Assoc5("HTTP/", v, l.code, " ", l.reason);
      Assoc("HTTP/", v + (l.code + " " + l.reason), d);
      Assoc(v, l.code + " " + l.reason, d);
      Assoc4(l.code, " ", l.reason, d);
    }
    DigitsAndSpaces(l.major);
    DigitsAndSpaces(l.minor);
    VersionParses(v, t);
    StatusCodeParses(l, rest);
  }

  lemma VersionParses(v: string, t: string)
    requires |v| == 4 && IsDigit(v[0]) && v[1] == '.' && IsDigit(v[2]) && v[3] == ' '
    ensures ParseStatusLine("HTTP/" + (v + t)) == ParseStatus(t)
  {
    TakeDrop("HTTP/", v + t);
    TakeDrop(v, t);
  }

  lemma StatusCodeParses(l: StatusLine, rest: string)
    requires WfStatus(l)
    ensures ParseStatus(l.code + (" " + (l.reason + (CRLF + rest)))) == Match((l.status, l.reason), rest)
  {
    var d := CRLF + rest;
    var c := l.reason + d;
    var b := " " + c;
    Free(l.reason);
    SpelledParses(l.code, l.status, b, INT_MIN, INT_MAX);
    hide ParseInt, Spells;
    TakeDrop(" ", c);
    SpanOf(l.reason, d, NotCr);
    TakeDrop(CRLF, rest);
  }

  /** The printed block is read back whatever follows: status, reason, the first of each
      duplicate field, and exactly through the blank line. */
  lemma {:induction false} HeaderParses(l: StatusLine, fs: seq<(string, string)>, tail: string)
    requires WfStatus(l) && WfFields(fs)
    ensures ParseHeader(Lines(HeadLines(l, fs)) + CRLF + tail)
         == Match(Head(l.status, l.reason, FirstWins(map[], fs)), tail)
  {
    var rest := Lines(FieldLines(fs)) + CRLF + tail;
    assert HeadLines(l, fs)[1..] == FieldLines(fs);
    assert Lines(HeadLines(l, fs)) + CRLF + tail == PrintStatus(l) + (CRLF + rest);
    StatusParses(l, rest);
    FieldsParse(fs, tail, map[]);
  }

  /** What a field lookup after parsing answers: the value of the first field of that name. */
  lemma {:induction false} FirstWinsLookup(m: map<string, string>, fs: seq<(string, string)>, k: string)
    ensures k in m ==> k in FirstWins(m, fs) && FirstWins(m, fs)[k] == m[k]
    ensures k in FirstWins(m, fs) <==> k in m || exists i | 0 <= i < |fs| :: fs[i].0 == k
    ensures forall i | 0 <= i < |fs| && fs[i].0 == k && k !in m && (forall j | 0 <= j < i :: fs[j].0 != k) ::
              FirstWins(m, fs)[k] == fs[i].1
    decreases |fs|
  {
    if fs != [] {
      var m' := if fs[0].0 in m then m else m[fs[0].0 := fs[0].1];
      FirstWinsLookup(m', fs[1..], k);
      assert forall i | 1 <= i < |fs| :: fs[i] == fs[1..][i - 1];
      assert forall i | 0 <= i < |fs[1..]| :: fs[1..][i] == fs[i + 1];
    }
  }

  // ----- Every head that is read is a printed one

  lemma Prefixed(p: string, s: string)
    requires p <= s
    ensures s == p + s[|p|..]
  {}

  lemma {:induction false} VersionRead(s: string) returns (v: string)
    requires ParseStatusLine(s).Match?
    ensures |v| == 4 && IsDigit(v[0]) && v[1] == '.' && IsDigit(v[2]) && v[3] == ' '
    ensures |s| >= 9 && s == "HTTP/" + (v + s[9..]) && ParseStatusLine(s) == ParseStatus(s[9..])
  {
    hide ParseStatus;
    Prefixed("HTTP/", s);
    DropDrop(s, 5, 4);
    v := s[5..][..4];
    assert s[5..] == v + s[9..];
  }

  lemma {:induction false} StatusRead(s: string) returns (l: StatusLine)
    requires ParseStatusLine(s).Match?
    ensures var r := ParseStatusLine(s);
      WfStatus(l) && s == PrintStatus(l) + (CRLF + r.rest) && r.value == (l.status, l.reason)
  {
    hide Spells, ParseStatus, ParseStatusLine;
    var v := VersionRead(s);
    DigitsAndSpaces(v[0]);
    DigitsAndSpaces(v[2]);
    var status, reason, code := StatusCodeRead(s[9..]);
    l := StatusLine(v[0], v[2], status, reason, code);
    assert v == [v[0], '.', v[2], ' '];
    StatusAssembled(v, code, reason, CRLF + ParseStatusLine(s).rest);
  }

  lemma StatusAssembled(v: string, code: string, reason: string, d: string)
    ensures "HTTP/" + v + code + " " + reason + d == "HTTP/" + (v + (code + (" " + (reason + d))))
  {
    Assoc5("HTTP/", v, code, " ", reason);
    Assoc("HTTP/", v + (code + " " + reason), d);
    Assoc(v, code + " " + reason, d);
    Assoc4(code, " ", reason, d);
  }

  lemma StatusParts(t: string, n: int, b: string)
    requires ParseStatus(t).Match? && ParseInt(t, INT_MIN, INT_MAX) == Some((n, b))
    ensures b != "" && b[0] == ' '
    ensures var c := b[1..];
      var k := Span(c, NotCr);
      k > 0 && CRLF <= c[k..] && ParseStatus(t) == Match((n, c[..k]), c[k..][2..])
  {
    hide ParseInt, Span;
  }

  lemma SomeInt(t: string)
    requires ParseStatus(t).Match?
    ensures ParseInt(t, INT_MIN, INT_MAX).Some?
  {
    hide ParseInt, Span;
  }

  lemma {:induction false} StatusCodeRead(t: string) returns (status: int, reason: string, code: string)
    requires ParseStatus(t).Match?
    ensures Spells(code, status) && -2147483648 <= status <= 2147483647 && reason != [] && '\r' !in reason
    ensures t == code + (" " + (reason + (CRLF + ParseStatus(t).rest))) && ParseStatus(t).value == (status, reason)
  {
    hide ParseInt, ParseStatus, Spells, Span, All;
    SomeInt(t);
    code := IntRead(t, INT_MIN, INT_MAX);
    var b := ParseInt(t, INT_MIN, INT_MAX).value.1;
    status := ParseInt(t, INT_MIN, INT_MAX).value.0;
    StatusParts(t, status, b);
    var c := b[1..];
    var k := Span(c, NotCr);
    SpanFree(c, k);
    reason := c[..k];
    assert " " <= b;
    Prefixed(" ", b);
    Prefixed(c[..k], c);
    Prefixed(CRLF, c[k..]);
  }

  lemma SpanFree(c: string, k: nat)
    requires k == Span(c, NotCr)
    ensures '\r' !in c[..k]
  {
    Free(c[..k]);
  }

  lemma {:induction false} FieldsRead(s: string, acc: map<string, string>) returns (fs: seq<(string, string)>)
    requires ParseFields(s, acc).Match?
    ensures WfFields(fs) && s == Lines(FieldLines(fs)) + CRLF + ParseFields(s, acc).rest
    ensures ParseFields(s, acc).value == FirstWins(acc, fs)
    decreases |s|
  {
    var n := Span(s, NameChar);
    if n == 0 {
      fs := [];
      assert s == CRLF + s[2..] && Lines(FieldLines(fs)) + CRLF + s[2..] == CRLF + s[2..];
    } else {
      var f, t := FieldRead(s, acc);
      var more := FieldsRead(t, FirstWins(acc, [f]));
      hide ParseFields, Span, WfField;
      fs := [f] + more;
      assert fs[1..] == more;
      FieldLinesUnfold(fs, ParseFields(s, acc).rest);
      FirstWinsMore(acc, f, more);
    }
  }

  lemma FirstWinsMore(acc: map<string, string>, f: (string, string), more: seq<(string, string)>)
    ensures FirstWins(FirstWins(acc, [f]), more) == FirstWins(acc, [f] + more)
  {
    assert ([f] + more)[1..] == more && [f][1..] == [];
  }

  lemma FieldParts(s: string, acc: map<string, string>)
    requires Span(s, NameChar) > 0 && ParseFields(s, acc).Match?
    ensures var n := Span(s, NameChar);
      var a := s[n..];
      ": " <= a && var m := Span(a[2..], NotCr);
      m > 0 && CRLF <= a[2 + m..] &&
      ParseFields(s, acc) == ParseFields(a[2 + m..][2..], FirstWins(acc, [(s[..n], a[2..2 + m])]))
  {
    hide Span, FirstWins;
  }

  lemma {:induction false} FieldRead(s: string, acc: map<string, string>) returns (f: (string, string), t: string)
    requires Span(s, NameChar) > 0 && ParseFields(s, acc).Match?
    ensures WfField(f) && s == f.0 + (": " + (f.1 + (CRLF + t))) && |t| < |s|
    ensures ParseFields(s, acc) == ParseFields(t, FirstWins(acc, [f]))
  {
    hide ParseFields, Span, FirstWins, WfField;
    FieldParts(s, acc);
    var n := Span(s, NameChar);
    var a := s[n..];
    var m := Span(a[2..], NotCr);
    var b := a[2 + m..];
    f, t := (s[..n], a[2..2 + m]), b[2..];
    SpanCut(s, NameChar);
    SpanCut(a[2..], NotCr);
    assert a[2..][..m] == f.1 && a[2..][m..] == b;
    FieldIs(f);
    hide All;
    Prefixed(": ", a);
    Prefixed(CRLF, b);
  }

  /** The text is a printed status line and field lines, then `rest`. */
  ghost predicate PrintedHead(s: string, h: Head, rest: string) {
    exists l, fs :: HeadAs(s, h, rest, l, fs)
  }

  predicate HeadAs(s: string, h: Head, rest: string, l: StatusLine, fs: seq<(string, string)>) {
    WfStatus(l) && WfFields(fs) && s == Lines(HeadLines(l, fs)) + CRLF + rest &&
    h == Head(l.status, l.reason, FirstWins(map[], fs))
  }

  /** The text does not begin as a status line does and is field lines, then `rest`. */
  ghost predicate PrintedFields(s: string, h: Head, rest: string) { exists fs :: FieldsAs(s, h, rest, fs) }

  predicate FieldsAs(s: string, h: Head, rest: string, fs: seq<(string, string)>) {
    !("HTTP/" <= s) && WfFields(fs) && s == Lines(FieldLines(fs)) + CRLF + rest &&
    h == Head(0, "", FirstWins(map[], fs))
  }

  /** A head is read if and only if it was printed, with or without a status line, and as what was printed; on every
      other text the parser throws. */
  lemma {:induction false} HeadReadExactly(s: string, h: Head, rest: string)
    ensures ParseHeader(s) == Match(h, rest) <==> PrintedHead(s, h, rest) || PrintedFields(s, h, rest)
    ensures !ParseHeader(s).NoMatch?
  {
    hide ParseFields, ParseStatusLine, Lines, FieldLines, HeadLines, WfStatus, WfFields, FirstWins;
    if PrintedHead(s, h, rest) {
      var l, fs :| HeadAs(s, h, rest, l, fs);
      HeaderParses(l, fs, rest);
    } else if PrintedFields(s, h, rest) {
      var fs :| FieldsAs(s, h, rest, fs);
      FieldsParse(fs, rest, map[]);
      NoStatus(s);
    }
    if ParseHeader(s) == Match(h, rest) { HeadRead(s, h, rest); }
  }

  lemma NoStatus(s: string)
    ensures ParseStatusLine(s).NoMatch? <==> !("HTTP/" <= s)
  {
    hide ParseStatus;
    if "HTTP/" <= s && |s[5..]| >= 4 { NeverNoMatch(s[5..][4..]); }
  }

  lemma NeverNoMatch(t: string)
    ensures !ParseStatus(t).NoMatch?
  {
    hide ParseInt, Span;
  }

  lemma {:induction false} HeadRead(s: string, h: Head, rest: string)
    requires ParseHeader(s) == Match(h, rest)
    ensures PrintedHead(s, h, rest) || PrintedFields(s, h, rest)
  {
    hide ParseFields, ParseStatusLine, Lines, FieldLines, WfStatus, WfFields, FirstWins, PrintStatus;
    NoStatus(s);
    if ParseStatusLine(s).Match? {
      var l := StatusRead(s);
      var t := ParseStatusLine(s).rest;
      var fs := FieldsRead(t, map[]);
      HeadJoins(l, fs, rest);
      assert HeadAs(s, h, rest, l, fs);
    } else {
      var fs := FieldsRead(s, map[]);
      assert FieldsAs(s, h, rest, fs);
    }
  }

  lemma HeadJoins(l: StatusLine, fs: seq<(string, string)>, rest: string)
    ensures Lines(HeadLines(l, fs)) + CRLF + rest
         == PrintStatus(l) + (CRLF + (Lines(FieldLines(fs)) + CRLF + rest))
  {
    var ls := HeadLines(l, fs);
    assert ls[1..] == FieldLines(fs);
    var more := Lines(FieldLines(fs));
    hide PrintStatus, FieldLines;
    assert Lines(ls) == PrintStatus(l) + CRLF + more;
    Assoc5(PrintStatus(l), CRLF, more, CRLF, rest);
  }

  // ----- The chunk size line

  /** The size line gives the size it spells exactly when that fits the 32-bit parser;
      otherwise the line is not consumed and the chunk reads as the last one. */
  lemma {:induction false} ChunkSizeParses(size: string, ext: string, tail: string)
    requires size != [] && All(size, IsHex) && '\n' !in ext && (ext == [] || !IsHex(ext[0]))
    ensures ParseChunkSize(size + ext + CRLF + tail)
         == if ValueOf(size, 16) < CHUNK_LIMIT then Match(ValueOf(size, 16), tail)
            else Match(0, size + ext + CRLF + tail)
  {
    var e := ext + "\r";
    Free(ext);
    assert CRLF == "\r" + "\n";
    hide ParseChunkSize, ValueOf;
    Assoc5(size, ext, "\r", "\n", tail);
    Assoc(ext, "\r", "\n" + tail);
    assert size + ext + CRLF + tail == size + (e + ("\n" + tail));
    SizeDigitsParse(size, e, tail);
  }

  /** A printed size, in either case at every digit and with any leading zeros, is read as what was printed as long as
      it fits 32 bits. */
  lemma {:induction false} PrintedSizeParses(n: nat, upper: seq<bool>, ext: string, tail: string)
    requires upper != [] && Fits(n, |upper|)
    requires '\n' !in ext && (ext == [] || (ext[0] !in LOWER_HEX && ext[0] !in UPPER_HEX))
    ensures ParseChunkSize(HexText(n, upper) + ext + CRLF + tail)
         == if n < 4294967296 then Match(n, tail) else Match(0, HexText(n, upper) + ext + CRLF + tail)
  {
    HexValue(n, upper);
    if ext != [] && IsHex(ext[0]) { SameHex(ext[0]); }
    hide ParseChunkSize, ValueOf, HexText, IsHex;
    ChunkSizeParses(HexText(n, upper), ext, tail);
  }

  lemma SizeDigitsParse(size: string, e: string, tail: string)
    requires size != [] && All(size, IsHex) && e != [] && All(e, NotLf) && !IsHex(e[0])
    ensures ParseChunkSize(size + (e + ("\n" + tail)))
         == if ValueOf(size, 16) < CHUNK_LIMIT then Match(ValueOf(size, 16), tail)
            else Match(0, size + (e + ("\n" + tail)))
  {
    hide ValueOf;
    var t := "\n" + tail;
    SpanOf(size, e + t, IsHex);
    SpanOf(e, t, NotLf);
    TakeDrop("\n", tail);
  }

  /** The text starts with the digits of a number and has a line feed behind them, with `rest` after it. */
  ghost predicate PrintedSize(s: string, n: nat, rest: string) { exists upper, ext :: SizeAs(s, n, rest, upper, ext) }

  predicate SizeAs(s: string, n: nat, rest: string, upper: seq<bool>, ext: string) {
    upper != [] && Fits(n, |upper|) && '\n' !in ext && (ext == "" || (ext[0] !in LOWER_HEX && ext[0] !in UPPER_HEX)) &&
    s == HexText(n, upper) + (ext + ("\n" + rest))
  }

  /** Whatever is consumed for a size was a printed size below 2^32; where nothing is consumed the size is zero. */
  lemma {:induction false} SizeReadExactly(s: string, n: nat, rest: string)
    requires rest != s
    ensures ParseChunkSize(s) == Match(n, rest) <==> n < 4294967296 && PrintedSize(s, n, rest)
  {
    hide HexText;
    if ParseChunkSize(s) == Match(n, rest) {
      var upper, ext := SizeRead(s);
      assert SizeAs(s, n, rest, upper, ext);
    } else if n < 4294967296 && PrintedSize(s, n, rest) {
      var upper, ext :| SizeAs(s, n, rest, upper, ext);
      SizePrinted(s, n, rest, upper, ext);
    }
  }

  /** Digits of a number that fits, with no line feed anywhere behind them. */
  ghost predicate OpenSize(s: string) { exists n, upper, ext :: OpenSizeAs(s, n, upper, ext) }

  predicate OpenSizeAs(s: string, n: nat, upper: seq<bool>, ext: string) {
    upper != [] && Fits(n, |upper|) && n < 4294967296 && '\n' !in ext &&
    (ext == "" || (ext[0] !in LOWER_HEX && ext[0] !in UPPER_HEX)) && s == HexText(n, upper) + ext
  }

  /** Only that throws. */
  lemma {:induction false} SizeThrowsExactly(s: string)
    ensures ParseChunkSize(s).Threw? <==> OpenSize(s)
  {
    hide HexText, ValueOf, Fits, IsHex;
    if ParseChunkSize(s).Threw? {
      var h := Span(s, IsHex);
      SpanCut(s, IsHex);
      var upper := HexRead(s[..h]);
      var ext := s[h..];
      assert ext[..|ext|] == ext;
      Free(ext);
      if ext != "" { NotHexHere(ext[0]); }
      assert OpenSizeAs(s, ValueOf(s[..h], 16), upper, ext);
    }
    if OpenSize(s) {
      var n, upper, ext :| OpenSizeAs(s, n, upper, ext);
      HexValue(n, upper);
      if ext != "" { HexListed(ext[0]); }
      SpanOf(HexText(n, upper), ext, IsHex);
      Free(ext);
      SpanOf(ext, "", NotLf);
      assert ext + "" == ext;
    }
  }

  lemma HexListed(c: char)
    ensures c !in LOWER_HEX && c !in UPPER_HEX ==> !IsHex(c)
  {
    if IsHex(c) { SameHex(c); }
  }

  lemma {:induction false} SizePrinted(s: string, n: nat, rest: string, upper: seq<bool>, ext: string)
    requires n < 4294967296 && SizeAs(s, n, rest, upper, ext)
    ensures ParseChunkSize(s) == Match(n, rest)
  {
    hide HexText, ValueOf, Fits, IsHex, ParseChunkSize, Span, All;
    HexValue(n, upper);
    NoHexEnd();
    if ext != "" { HexListed(ext[0]); }
    Free(ext);
    var t := ext + ("\n" + rest);
    assert t[0] == if ext == "" then '\n' else ext[0];
    SpanOf(HexText(n, upper), t, IsHex);
    SpanOf(ext, "\n" + rest, NotLf);
    TakeDrop("\n", rest);
    SizeTaken(s, |HexText(n, upper)|, t, |ext|);
  }

  lemma SizeTaken(s: string, h: nat, t: string, e: nat)
    requires h == Span(s, IsHex) > 0 && t == s[h..] && e == Span(t, NotLf) < |t|
    requires ValueOf(s[..h], 16) < 4294967296
    ensures ParseChunkSize(s) == Match(ValueOf(s[..h], 16), t[e..][1..])
  {
    hide Span, ValueOf;
  }

  lemma NoHexEnd()
    ensures !IsHex('\n')
  {}

  lemma {:induction false} SizeRead(s: string) returns (upper: seq<bool>, ext: string)
    requires ParseChunkSize(s).Match? && ParseChunkSize(s).rest != s
    ensures SizeAs(s, ParseChunkSize(s).value, ParseChunkSize(s).rest, upper, ext)
    ensures ParseChunkSize(s).value < 4294967296
  {
    hide ParseChunkSize, Span, ValueOf, Fits, HexText, All, IsHex;
    SizeParts(s);
    var h := Span(s, IsHex);
    var t := s[h..];
    var e := Span(t, NotLf);
    SpanCut(s, IsHex);
    SpanCut(t, NotLf);
    upper := HexRead(s[..h]);
    ext := t[..e];
    Free(ext);
    Prefixed("\n", t[e..]);
    if ext != "" {
      assert ext[0] == t[0];
      NotHexHere(ext[0]);
    }
  }

  lemma SizeParts(s: string)
    requires ParseChunkSize(s).Match? && ParseChunkSize(s).rest != s
    ensures var h := Span(s, IsHex);
      var t := s[h..];
      var e := Span(t, NotLf);
      h > 0 && ValueOf(s[..h], 16) < 4294967296 && "\n" <= t[e..] && (t != "" ==> !IsHex(t[0])) &&
      ParseChunkSize(s) == Match(ValueOf(s[..h], 16), t[e..][1..])
  {
    hide ValueOf;
    var t := s[Span(s, IsHex)..];
    var e := Span(t, NotLf);
    if e < |t| { assert t[e..][0] == t[e] == '\n'; }
    hide Span, All, IsHex;
  }

  lemma NotHexHere(c: char)
    ensures !IsHex(c) ==> c !in LOWER_HEX && c !in UPPER_HEX
  {
    if c in LOWER_HEX {
      var i :| 0 <= i < 16 && LOWER_HEX[i] == c;
      HexChars(i);
    }
    if c in UPPER_HEX {
      var i :| 0 <= i < 16 && UPPER_HEX[i] == c;
      HexChars(i);
    }
  }
}
