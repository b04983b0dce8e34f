/**
 What a head decides, where the reader stops for good, and one response written out.
 */
module HttpEnds {
  import opened Text
  import opened HttpParse
  import opened HttpReader
  import opened HttpRuns

  /** The spellings of lengths that are converted. */
  predicate Length(code: string, n: int) {
    Spells(code, n) && -18446744073709551616 < n < 18446744073709551616
  }

  /** Behind a printed head the reader reads chunks if the first Transfer-Encoding is exactly `chunked`; otherwise it
      waits for the body of the first Content-Length, zero when there is none, modulo 2^64; a length that is no
      spelling of a number in range stops it. */
  lemma {:induction false} HeadDecides(
      line: StatusLine, fields: seq<(string, string)>, r: Reader, rest: string, n: int)
    requires WfStatus(line) && WfFields(fields) && r.pending.ReadHead? && r.Enabled()
    requires r.sb == HeadText(line, fields) + rest
    ensures var r' := r.Complete();
      var code := FieldValue(fields, "Content-Length", "0");
      r'.sb == rest && r'.calls == r.calls && r'.res.head == HeadOf(line, fields) &&
      if FieldValue(fields, "Transfer-Encoding", "") == "chunked" then r'.pending.ReadSize?
      else
        (Length(code, n) ==> var m := n % 18446744073709551616; r'.pending == ReadPlain(m, PlainTarget(|rest|, m))) &&
        ((forall k :: !Length(code, k)) ==> r'.pending.Idle?)
  {
    var code := FieldValue(fields, "Content-Length", "0");
    LookupIs(fields, "Transfer-Encoding", "");
    LookupIs(fields, "Content-Length", "0");
    HeaderParses(line, fields, rest);
    TakeDrop(HeadText(line, fields), rest);
    if Spells(code, n) { LexicalExactly(code, n); }
    if LexicalSize(code).Some? { LengthOf(code); }
    hide ParseHeader, WfStatus, WfFields, HeadLines, Lines, FirstWins, Contains, LexicalSize, Spells, FieldValue,
      PlainTarget;
  }

  lemma {:induction false} LengthOf(code: string)
    requires LexicalSize(code).Some?
    ensures exists n :: Length(code, n)
  {
    LexicalSpells(code);
    hide LexicalSize, Spells;
    var n :| Spells(code, n);
    LexicalExactly(code, n);
    assert Length(code, n);
  }

  /** A head that cannot be read stops the reader where it is. */
  lemma {:induction false} HeadStops(r: Reader)
    requires r.pending.ReadHead? && r.Enabled()
    ensures !ParseHeader(r.sb).Match? ==> r.Complete() == r.Wait(Idle)
  {
    hide ParseHeader, LexicalSize, PlainTarget;
  }

  /** A reader that has stopped never calls again, whatever arrives. */
  lemma {:induction false} StoppedForGood(es: seq<Event>, more: seq<Event>)
    requires IsRun(es) && IsRun(es + more) && After(es).pending.Idle?
    ensures After(es + more).pending.Idle? && After(es + more).calls == After(es).calls
    decreases |more|
  {
    if more == [] {
      assert es + more == es;
    } else {
      var front, all := more[..|more| - 1], es + more;
      assert all[..|all| - 1] == es + front;
      RunFront(all);
      hide Run;
      StoppedForGood(es, front);
    }
  }

  // ----- One response written out

  function Ten(): Message {
    Message(StatusLine('1', '1', 200, "OK", "200"), [("Transfer-Encoding", "chunked")],
            [Chunk("a", "", "0123456789")], "0", "", [])
  }

  const TEN_HEAD: string := "HTTP/1.1 200 OK\r\n" + ("Transfer-Encoding: chunked\r\n" + "\r\n")
  const TEN_BODY: string := "a\r\n0123456789\r\n0\r\n\r\n"

  lemma TwoHundred()
    ensures Spells("200", 200)
  {
    var s := "200";
    assert All(s, IsDigit);
    assert s[..2] == "20" && "20"[..1] == "2" && "2"[..0] == "";
    assert ValueOf("", 10) == 0;
    assert ValueOf("2", 10) == 2;
    assert ValueOf("20", 10) == 20;
  }

  lemma OneDigit(c: char)
    requires IsHex(c)
    ensures SizeLine([c], "", DigitOf(c))
  {
    assert [c][..0] == "";
    assert ValueOf("", 16) == 0;
  }

  lemma LineIsWf()
    ensures WfStatus(Ten().line)
  {
    TwoHundred();
    hide Spells;
    var d := "0123456789";
    assert d[1] == '1';
    assert "OK"[0] == 'O' && "OK"[1] == 'K';
  }

  lemma FieldsAreWf()
    ensures WfFields(Ten().fields) && FieldValue(Ten().fields, "Transfer-Encoding", "") == "chunked"
  {
    var f := ("Transfer-Encoding", "chunked");
    assert Ten().fields == [f];
    assert WfField(f);
  }

  lemma {:induction false} TenIsWf()
    ensures Wf(Ten())
  {
    LineIsWf();
    FieldsAreWf();
    OneDigit('a');
    OneDigit('0');
    hide WfStatus, FieldValue, SizeLine, WfField;
    var m := Ten();
    assert m.chunks[0].size == ['a'] && m.zero == ['0'];
    assert WfChunk(m.chunks[0]);
    assert m.trailer == [];
  }

  lemma LineIs()
    ensures PrintStatus(Ten().line) == "HTTP/1.1 200 OK"
  {}

  lemma FieldsAre()
    ensures FieldLines(Ten().fields) == ["Transfer-Encoding: chunked"]
  {
    var f := ("Transfer-Encoding", "chunked");
    var fs := Ten().fields;
    assert fs == [f] && fs[1..] == [];
    assert f.0 + ": " + f.1 == "Transfer-Encoding: chunked";
  }

  lemma TwoLines(a: string, b: string)
    ensures Lines([a, b]) + CRLF == a + (CRLF + (b + (CRLF + CRLF)))
  {
    assert [a, b][1..] == [b] && [b][1..] == [];
    assert Lines([b]) == b + CRLF + "" == b + CRLF;
    assert Lines([a, b]) == a + CRLF + (b + CRLF);
    Assoc4(a, CRLF, b + CRLF, CRLF);
    Assoc(b, CRLF, CRLF);
  }

  lemma HeadIs()
    ensures HeadText(Ten().line, Ten().fields) == TEN_HEAD
  {
    LineIs();
    FieldsAre();
    hide PrintStatus, FieldLines, Lines;
    var a, b := "HTTP/1.1 200 OK", "Transfer-Encoding: chunked";
    assert HeadLines(Ten().line, Ten().fields) == [a, b];
    TwoLines(a, b);
    HeadLiteral();
  }

  lemma HeadLiteral()
    ensures "HTTP/1.1 200 OK" + (CRLF + ("Transfer-Encoding: chunked" + (CRLF + CRLF))) == TEN_HEAD
  {
    var a, b := "HTTP/1.1 200 OK", "Transfer-Encoding: chunked";
    assert a + CRLF == "HTTP/1.1 200 OK\r\n";
    assert b + CRLF == "Transfer-Encoding: chunked\r\n";
    Assoc(b, CRLF, CRLF);
    Assoc(a, CRLF, b + (CRLF + CRLF));
  }

  lemma BodyIs()
    ensures Body(Ten(), 0) == TEN_BODY
  {
    var m := Ten();
    assert FieldLines(m.trailer) == [] && Lines([]) == "";
    assert Tail(m) == "\r\n";
    hide Tail;
    assert Body(m, 1) == "0" + "" + CRLF + "\r\n" == "0\r\n\r\n";
    assert ChunkText(m.chunks[0]) == "a\r\n0123456789\r\n";
    hide ChunkText;
    assert Body(m, 0) == "a\r\n0123456789\r\n" + "0\r\n\r\n";
    assert "a\r\n0123456789\r\n" + "0\r\n\r\n" == TEN_BODY;
  }

  lemma {:induction false} TenIsText()
    ensures Stream(Ten()) == TEN_HEAD + TEN_BODY
  {
    HeadIs();
    BodyIs();
    hide HeadText, Body, TEN_HEAD, TEN_BODY;
  }

  /** However these bytes are cut and whenever the completions run, the handler is called once, with the ten digits. */
  lemma {:induction false} TenIsDelivered(es: seq<Event>)
    requires IsRun(es) && Received(es) == TEN_HEAD + TEN_BODY && !After(es).Enabled()
    ensures |After(es).calls| == 1 && After(es).calls[0].data == "0123456789\r\n"
    ensures After(es).calls[0].head.status == 200
  {
    TenIsWf();
    TenIsText();
    hide Wf, Stream, Received, Run, Reader.Enabled, TEN_HEAD, TEN_BODY;
    AllDelivered(Ten(), es);
    assert "0123456789" + CRLF == "0123456789\r\n";
  }
}
