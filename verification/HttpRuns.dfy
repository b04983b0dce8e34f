/**
 Runs of the reader on one well-formed response (section 4.1 of RFC 7230), cut into arrivals
 anywhere and completed in any order the event loop allows.
 */
module HttpRuns {
  import opened Text
  import opened HttpParse
  import opened HttpReader

  datatype Chunk = Chunk(size: string, ext: string, data: string)

  /** A chunked response: any spelling of the sizes, any extension text, optional trailer. */
  datatype Message = Message(
    line: StatusLine, fields: seq<(string, string)>, chunks: seq<Chunk>,
    zero: string, ext: string, trailer: seq<(string, string)>)

  /** The value of the first field of a name. */
  function FieldValue(fs: seq<(string, string)>, k: string, v: string): string {
    if fs == [] then v else if fs[0].0 == k then fs[0].1 else FieldValue(fs[1..], k, v)
  }

  lemma {:induction false} LookupFirst(acc: map<string, string>, fs: seq<(string, string)>, k: string, v: string)
    ensures Lookup(FirstWins(acc, fs), k, v) == if k in acc then acc[k] else FieldValue(fs, k, v)
    decreases |fs|
  {
    if fs != [] { LookupFirst(if fs[0].0 in acc then acc else acc[fs[0].0 := fs[0].1], fs[1..], k, v); }
  }

  /** What the reader looks up in a head it has read. */
  lemma LookupIs(fs: seq<(string, string)>, k: string, v: string)
    ensures Lookup(FirstWins(map[], fs), k, v) == FieldValue(fs, k, v)
  {
    LookupFirst(map[], fs, k, v);
  }

  predicate SizeLine(size: string, ext: string, n: nat) {
    size != [] && All(size, IsHex) && ValueOf(size, 16) == n &&
    '\n' !in ext && (ext == [] || !IsHex(ext[0]))
  }

  predicate WfChunk(c: Chunk) {
    SizeLine(c.size, c.ext, |c.data|) && 0 < |c.data| < 4294967296
  }

  predicate Wf(m: Message) {
    WfStatus(m.line) && WfFields(m.fields) &&
    FieldValue(m.fields, "Transfer-Encoding", "") == "chunked" &&
    (forall c | c in m.chunks :: WfChunk(c)) &&
    SizeLine(m.zero, m.ext, 0) && WfFields(m.trailer)
  }

  function HeadOf(line: StatusLine, fields: seq<(string, string)>): Head {
    Head(line.status, line.reason, FirstWins(map[], fields))
  }

  function HeadText(line: StatusLine, fields: seq<(string, string)>): string {
    Lines(HeadLines(line, fields)) + CRLF
  }

  function ChunkText(c: Chunk): string { c.size + c.ext + CRLF + (c.data + CRLF) }

  function Tail(m: Message): string { Lines(FieldLines(m.trailer)) + CRLF }

  /** The body from chunk `k` on. */
  function Body(m: Message, k: nat): string
    requires k <= |m.chunks|
    decreases |m.chunks| - k
  {
    if k == |m.chunks| then m.zero + m.ext + CRLF + Tail(m) else ChunkText(m.chunks[k]) + Body(m, k + 1)
  }

  function Stream(m: Message): string { HeadText(m.line, m.fields) + Body(m, 0) }

  /** The head and the first `k` chunks. */
  function Front(m: Message, k: nat): string
    requires k <= |m.chunks|
  {
    if k == 0 then HeadText(m.line, m.fields) else Front(m, k - 1) + ChunkText(m.chunks[k - 1])
  }

  /** What the handler is to be called with for chunk `i`. */
  function Delivery(m: Message, i: nat): Response
    requires i < |m.chunks|
  {
    Response(HeadOf(m.line, m.fields), m.chunks[i].data + CRLF)
  }

  predicate CallsAre(m: Message, calls: seq<Response>) {
    |calls| <= |m.chunks| && forall i | 0 <= i < |calls| :: calls[i] == Delivery(m, i)
  }

  /** Where the reader stands in the message, with `future` still to arrive. */
  predicate Tracks(m: Message, r: Reader, future: string) {
    var k, n := |r.calls|, |m.chunks|;
    CallsAre(m, r.calls) && r.Valid() &&
    match r.pending
    case ReadHead => (k == 0 && r.sb + future == Stream(m)) ||
                     (k == n && future == "" && r.sb == Tail(m) && m.trailer != [])
    case ReadSize => (r.res.head == HeadOf(m.line, m.fields) && r.sb + future == Body(m, k)) ||
                     (k == n && future == r.sb == "" && m.trailer != [])
    case ReadBody(size, _) => r.res.head == HeadOf(m.line, m.fields) && InChunk(m, k, size, r.sb + future)
    case ReadTrailer => k == n && r.sb != "" && r.sb + future == Tail(m)
    case ReadPlain(length, target) => k == n && future == r.sb == "" && target == length && m.trailer != []
    case Idle => k == n && future == "" && m.trailer != [] && (r.sb == "" || '/' in m.trailer[0].0)
  }

  /** Past the size line of chunk `k`. */
  predicate InChunk(m: Message, k: nat, size: nat, rest: string)
    requires k <= |m.chunks|
  {
    if k < |m.chunks| then size == |m.chunks[k].data| && rest == m.chunks[k].data + CRLF + Body(m, k + 1)
    else size == 0 && rest == Tail(m)
  }

  // ----- One completion

  /** Cutting a known line off a buffer that already holds it. */
  lemma Cut(line: string, rest: string, buf: string, future: string)
    requires buf + future == line + rest && |buf| >= |line|
    ensures buf == line + buf[|line|..] && buf[..|line|] == line && buf[|line|..] + future == rest
  {
    assert buf[..|line|] == (buf + future)[..|line|] == line;
    assert buf[|line|..] + future == (buf + future)[|line|..];
    TakeDrop(line, rest);
  }

  lemma {:induction false} HeadCompletes(m: Message, r: Reader, future: string)
    requires Wf(m) && r.pending.ReadHead? && CanComplete(r)
    requires r.calls == [] && r.sb + future == Stream(m)
    ensures Tracks(m, r.Complete(), future)
  {
    hide ParseHeader, WfStatus, WfFields, HeadLines, Lines, FirstWins, Body, Contains;
    LookupIs(m.fields, "Transfer-Encoding", "");
    HeadArrives(m.line, m.fields, Body(m, 0), r.sb, future);
    var text := HeadText(m.line, m.fields);
    Cut(text, Body(m, 0), r.sb, future);
    var rest := r.sb[|text|..];
    HeaderParses(m.line, m.fields, rest);
    assert |r.sb| - |rest| == |text|;
  }

  predicate CanComplete(r: Reader) { r.Valid() && r.Enabled() }

  lemma HeadArrives(line: StatusLine, fields: seq<(string, string)>, body: string, buf: string, future: string)
    requires WfStatus(line) && WfFields(fields)
    requires buf + future == HeadText(line, fields) + body
    ensures Contains(buf, EOL2) <==> |buf| >= |HeadText(line, fields)|
  {
    HeadLinesArePlain(line, fields);
    Eol2Arrives(HeadLines(line, fields), body, buf, future);
  }

  lemma TrailerArrives(m: Message, buf: string, future: string)
    requires Wf(m) && buf + future == Tail(m)
    ensures Contains(buf, EOL2) <==> m.trailer != [] && future == ""
  {
    FieldLinesArePlain(m.trailer);
    if m.trailer != [] {
      assert buf + future == Lines(FieldLines(m.trailer)) + CRLF + "";
      Eol2Arrives(FieldLines(m.trailer), "", buf, future);
    } else {
      assert Tail(m) == CRLF;
    }
  }

  /** A trailer whose first name is a token, and so has no slash, does not look like a status line. */
  lemma {:induction false} NoStatusLine(fs: seq<(string, string)>)
    requires WfFields(fs) && fs != [] && '/' !in fs[0].0
    ensures ParseStatusLine(Lines(FieldLines(fs)) + CRLF) == NoMatch
  {
    var s, f := Lines(FieldLines(fs)) + CRLF, fs[0];
    FieldLinesUnfold(fs, "");
    assert s == s + "";
    assert WfField(f);
    var j := if |f.0| <= 4 then |f.0| else 4;
    assert s[j] == (if j == |f.0| then ':' else f.0[j]) && (j < |f.0| ==> f.0[j] in f.0);
    assert s[j] != "HTTP/"[j];
  }

  lemma {:induction false} SpanDrop(s: string, k: nat)
    requires k <= |s| && forall i | 0 <= i < k :: s[i] != '\r'
    ensures Span(s, NotCr) == k + Span(s[k..], NotCr)
  {
    if k > 0 {
      var t := s[1..];
      assert forall i | 0 <= i < k - 1 :: t[i] == s[i + 1];
      assert Span(s, NotCr) == 1 + Span(t, NotCr);
      hide Span;
      SpanDrop(t, k - 1);
      assert t[k - 1..] == s[k..];
    } else {
      assert s[0..] == s;
    }
  }

  lemma {:induction false} SpanChars(s: string, p: char -> bool)
    ensures var n := Span(s, p); forall i | 0 <= i < n :: p(s[i])
  {
    var n := Span(s, p);
    forall i | 0 <= i < n ensures p(s[i]) { assert s[i] == s[..n][i]; }
  }

  /** A number is read from characters before the first carriage return. */
  lemma {:induction false} IntBeforeCr(s: string, lo: int, hi: int)
    ensures ParseInt(s, lo, hi).Some? ==>
              var b := ParseInt(s, lo, hi).value.1;
              |b| < |s| && b == s[|s| - |b|..] && forall i | 0 <= i < |s| - |b| :: s[i] != '\r'
  {
    if ParseInt(s, lo, hi).Some? {
      var d := if s[0] == '-' || s[0] == '+' then s[1..] else s;
      var n := Span(d, IsDigit);
      var b := ParseInt(s, lo, hi).value.1;
      assert b == d[n..] by { hide ValueOf, Span; }
      hide ParseInt, Span;
      SpanChars(d, IsDigit);
      forall i | 0 <= i < |s| - |b| ensures s[i] != '\r' {
        var at := i - (|s| - |d|);
        if 0 <= at { assert s[i] == d[at] && IsDigit(d[at]); }
      }
    }
  }

  /** The version of a status line contains no carriage return. */
  lemma {:induction false} VersionBeforeCr(s: string)
    requires ParseStatusLine(s).Match?
    ensures |s| >= 9 && ParseStatusLine(s) == ParseStatus(s[9..]) && forall i | 0 <= i < 9 :: s[i] != '\r'
  {
    hide ParseStatus;
    var v, a := "HTTP/", s[5..];
    assert v <= s && |a| >= 4 && IsDigit(a[0]) && a[1] == '.' && IsDigit(a[2]) && a[3] == ' ';
    DropDrop(s, 5, 4);
    assert ParseStatusLine(s) == ParseStatus(s[9..]);
    hide ParseStatusLine;
    assert forall i | 0 <= i < 5 :: s[i] == v[i] != '\r';
    assert s[5] == a[0] && s[6] == a[1] && s[7] == a[2] && s[8] == a[3];
  }

  /** A status line that is read ends at the first carriage return of the text. */
  lemma {:induction false} StatusLineEndsAtCr(s: string)
    ensures ParseStatusLine(s).Match? ==>
              var j := Span(s, NotCr); j + 2 <= |s| && ParseStatusLine(s).rest == s[j + 2..]
  {
    if ParseStatusLine(s).Match? {
      VersionBeforeCr(s);
      hide ParseStatusLine, ParseStatus, Span;
      SpanDrop(s, 9);
      StatusEndsAtCr(s[9..]);
      DropDrop(s, 9, Span(s[9..], NotCr) + 2);
    }
  }

  lemma {:induction false} StatusEndsAtCr(t: string)
    requires ParseStatus(t).Match?
    ensures var j := Span(t, NotCr); j + 2 <= |t| && ParseStatus(t).rest == t[j + 2..]
  {
    hide *;
    NumberFirst(t);
    IntBeforeCr(t, INT_MIN, INT_MAX);
    var b := ParseInt(t, INT_MIN, INT_MAX).value.1;
    ReasonEndsAtCr(t, b);
    var k := |t| - |b|;
    SpanDrop(t, k);
    DropDrop(t, k, Span(b, NotCr) + 2);
  }

  lemma NumberFirst(t: string)
    requires ParseStatus(t).Match?
    ensures ParseInt(t, INT_MIN, INT_MAX).Some?
  {
    hide ParseInt, Span;
  }

  /** The text behind the number: a blank, the reason and CRLF. */
  lemma {:induction false} ReasonEndsAtCr(t: string, b: string)
    requires ParseStatus(t).Match? && ParseInt(t, INT_MIN, INT_MAX).Some?
    requires ParseInt(t, INT_MIN, INT_MAX).value.1 == b
    ensures var j := Span(b, NotCr); j + 2 <= |b| && ParseStatus(t).rest == b[j + 2..]
  {
    hide ParseInt;
    var n := Span(b[1..], NotCr);
    assert |b| >= n + 3 && ParseStatus(t).rest == b[1..][n..][2..] && Span(b, NotCr) == 1 + n;
    hide ParseStatus, Span;
    DropDrop(b, 1, n);
    DropDrop(b, 1 + n, 2);
  }

  /** Whatever its names are, the trailer is consumed to its end or throws when it is read as a head; with a token
      for its first name it never throws. */
  lemma {:induction false} TrailerParses(fs: seq<(string, string)>)
    requires WfFields(fs) && fs != []
    ensures var p := ParseHeader(Lines(FieldLines(fs)) + CRLF);
      (p.Match? ==> p.rest == "") &&
      ('/' !in fs[0].0 ==> p == Match(Head(0, "", FirstWins(map[], fs)), ""))
  {
    var s, more := Lines(FieldLines(fs)) + CRLF, Lines(FieldLines(fs[1..])) + CRLF;
    assert WfFields(fs[1..]);
    hide Lines, FieldLines, WfFields, ParseStatusLine, ParseFields, Span, ParseHeader, FirstWins;
    FieldsEnd(fs);
    FieldsEnd(fs[1..]);
    StatusLineEndsAtCr(s);
    FirstLine(fs);
    HeadRest(s, more);
    if '/' !in fs[0].0 {
      NoStatusLine(fs);
      HeadWithoutStatus(s, FirstWins(map[], fs));
    }
  }

  lemma HeadWithoutStatus(s: string, fields: map<string, string>)
    requires ParseStatusLine(s).NoMatch? && ParseFields(s, map[]) == Match(fields, "")
    ensures ParseHeader(s) == Match(Head(0, "", fields), "")
  {
    hide ParseFields, ParseStatusLine;
  }

  lemma HeadRest(s: string, more: string)
    requires forall t | t == s || t == more :: ParseFields(t, map[]).Match? && ParseFields(t, map[]).rest == ""
    requires ParseStatusLine(s).Match? ==> ParseStatusLine(s).rest == more
    ensures ParseHeader(s).Match? ==> ParseHeader(s).rest == ""
  {
    hide ParseFields, ParseStatusLine;
  }

  lemma FieldsEnd(fs: seq<(string, string)>)
    requires WfFields(fs)
    ensures ParseFields(Lines(FieldLines(fs)) + CRLF, map[]) == Match(FirstWins(map[], fs), "")
  {
    var s := Lines(FieldLines(fs)) + CRLF;
    assert s + "" == s;
    hide Lines, FieldLines, WfFields, ParseFields, FirstWins;
    FieldsParse(fs, "", map[]);
  }

  lemma FirstIsPlain(fs: seq<(string, string)>)
    requires WfFields(fs) && fs != []
    ensures All(FieldLines(fs)[0], NotCr) && FieldLines(fs)[1..] == FieldLines(fs[1..])
  {
    FieldLinesArePlain(fs);
    assert FieldLines(fs)[0] in FieldLines(fs);
    hide WfFields, All;
  }

  lemma LinesUnfold(ls: seq<string>, more: string)
    requires ls != []
    ensures Lines(ls) + more == ls[0] + (CRLF + (Lines(ls[1..]) + more))
  {
    Assoc4(ls[0], CRLF, Lines(ls[1..]), more);
  }

  lemma {:induction false} FirstLine(fs: seq<(string, string)>)
    requires WfFields(fs) && fs != []
    ensures var s := Lines(FieldLines(fs)) + CRLF;
      var j := Span(s, NotCr);
      j + 2 <= |s| && s[j + 2..] == Lines(FieldLines(fs[1..])) + CRLF
  {
    hide *;
    var ls := FieldLines(fs);
    FirstIsPlain(fs);
    LinesUnfold(ls, CRLF);
    var more := Lines(ls[1..]) + CRLF;
    CrStarts(more);
    SpanOf(ls[0], CRLF + more, NotCr);
    DropTwo(ls[0], CRLF, more);
  }

  lemma CrStarts(more: string)
    ensures |CRLF| == 2 && CRLF + more != "" && !NotCr((CRLF + more)[0])
  {}

  /** The trailer is read once more as a head, and no handler call comes of it. */
  lemma {:induction false} TrailerHeadCompletes(m: Message, r: Reader)
    requires Wf(m) && CallsAre(m, r.calls) && r.pending.ReadHead? && CanComplete(r)
    requires |r.calls| == |m.chunks| && r.sb == Tail(m) && m.trailer != []
    ensures Tracks(m, r.Complete(), "")
  {
    TrailerParses(m.trailer);
    hide Wf, Tail, ParseHeader, Tracks;
    TrailerHeadStep(r);
    FinishedTracks(m, r, !ParseHeader(r.sb).Match?);
  }

  predicate Finished(r: Reader, calls: seq<Response>, threw: bool) {
    r.Valid() && r.calls == calls &&
    ((r.pending.Idle? && (r.sb == "" || threw)) ||
     (r.sb == "" && (r.pending.ReadSize? || (r.pending.ReadPlain? && r.pending.target == r.pending.length))))
  }

  lemma {:induction false} TrailerHeadStep(r: Reader)
    requires r.pending.ReadHead? && CanComplete(r) && r.sb != ""
    requires ParseHeader(r.sb).Match? ==> ParseHeader(r.sb).rest == ""
    ensures Finished(r.Complete(), r.calls, !ParseHeader(r.sb).Match?)
  {
    hide ParseHeader, Contains, LexicalSize;
  }

  lemma {:induction false} FinishedTracks(m: Message, r: Reader, threw: bool)
    requires Wf(m) && CallsAre(m, r.calls) && |r.calls| == |m.chunks| && CanComplete(r)
    requires m.trailer != [] && (threw ==> '/' in m.trailer[0].0) && Finished(r.Complete(), r.calls, threw)
    ensures Tracks(m, r.Complete(), "")
  {
    hide Wf, CanComplete, Reader.Complete;
  }

  lemma DataCompletes(m: Message, r: Reader, size: nat, future: string)
    requires CallsAre(m, r.calls) && r.res.head == HeadOf(m.line, m.fields)
    requires |r.calls| < |m.chunks| ==> 0 < |m.chunks[|r.calls|].data|
    requires InChunk(m, |r.calls|, size, r.sb + future) && size + 2 <= |r.sb|
    ensures Tracks(m, r.ChunkBodyReadComplete(size), future)
  {
    hide Body, HeadOf, Tail;
    var k := |r.calls|;
    if k < |m.chunks| {
      var c := m.chunks[k].data + CRLF;
      Cut(c, Body(m, k + 1), r.sb, future);
    }
  }

  lemma SizeCompletes(m: Message, r: Reader, future: string)
    requires Wf(m) && CallsAre(m, r.calls) && r.pending.ReadSize? && CanComplete(r)
    requires r.res.head == HeadOf(m.line, m.fields) && r.sb + future == Body(m, |r.calls|)
    ensures Tracks(m, r.Complete(), future)
  {
    hide Body, InChunk, Contains, ChunkText, Tail, ParseChunkSize, Tracks;
    var k := |r.calls|;
    var size, ext, n, after := SizeLineOf(m, k);
    SizeLineArrives(size, ext, n, after, r.sb, future);
    var rest := r.sb[|size + ext + CRLF|..];
    Cut(size + ext + CRLF, after, r.sb, future);
    ChunkSizeParses(size, ext, rest);
    SizeStep(m, r, future, n, rest);
  }

  /** The size line of chunk `k`, or of the zero chunk, and what comes after it. */
  lemma SizeLineOf(m: Message, k: nat) returns (size: string, ext: string, n: nat, after: string)
    requires Wf(m) && k <= |m.chunks|
    ensures SizeLine(size, ext, n) && Body(m, k) == size + ext + CRLF + after
    ensures n < CHUNK_LIMIT && (k < |m.chunks| ==> n > 0) && InChunk(m, k, n, after)
  {
    if k == |m.chunks| {
      size, ext, n, after := m.zero, m.ext, 0, Tail(m);
    } else {
      var c := m.chunks[k];
      assert WfChunk(c);
      size, ext, n, after := c.size, c.ext, |c.data|, c.data + CRLF + Body(m, k + 1);
      Assoc(size + ext + CRLF, c.data + CRLF, Body(m, k + 1));
    }
  }

  lemma SizeLineArrives(size: string, ext: string, n: nat, after: string, buf: string, future: string)
    requires SizeLine(size, ext, n) && buf + future == size + ext + CRLF + after
    ensures Contains(buf, CRLF) <==> |buf| >= |size + ext + CRLF|
    ensures |size + ext + CRLF| > 2
  {
    hide ValueOf, Contains;
    assert forall i | 0 <= i < |size| :: IsHex(size[i]);
    Free(ext);
    assert All(size + ext, NotLf);
    CrlfArrives(size + ext, after, buf, future);
  }

  lemma {:induction false} SizeStep(m: Message, r: Reader, future: string, n: nat, rest: string)
    requires CallsAre(m, r.calls) && r.res.head == HeadOf(m.line, m.fields)
    requires |r.calls| < |m.chunks| ==> 0 < |m.chunks[|r.calls|].data|
    requires r.pending.ReadSize? && CanComplete(r) && |r.sb| > 2 && ParseChunkSize(r.sb) == Match(n, rest)
    requires |rest| <= |r.sb| && r.sb[|r.sb| - |rest|..] == rest && InChunk(m, |r.calls|, n, rest + future)
    ensures Tracks(m, r.Complete(), future)
  {
    hide ParseChunkSize, Contains, HeadOf, Body, Tail;
    var r' := r.Consume(|r.sb| - |rest|);
    if n + 2 <= |rest| { DataCompletes(m, r', n, future); }
  }

  lemma TrailerCompletes(m: Message, r: Reader, future: string)
    requires Wf(m) && CallsAre(m, r.calls) && r.pending.ReadTrailer? && CanComplete(r)
    requires |r.calls| == |m.chunks| && r.sb != "" && r.sb + future == Tail(m)
    ensures Tracks(m, r.Complete(), future)
  {
    hide Contains, Tail, Wf;
    TrailerArrives(m, r.sb, future);
    assert r.sb + future == r.sb;
  }

  lemma CompleteTracks(m: Message, r: Reader, future: string)
    requires Wf(m) && Tracks(m, r, future) && r.Enabled()
    ensures Tracks(m, r.Complete(), future)
  {
    WfChunksHaveData(m);
    hide Wf, Body, HeadOf, Stream, Tail, Contains, ParseHeader, ParseChunkSize;
    match r.pending
    case ReadHead =>
      if r.calls == [] && r.sb + future == Stream(m) { HeadCompletes(m, r, future); }
      else { TrailerHeadCompletes(m, r); }
    case ReadSize =>
      NotInEmpty(CRLF);
      SizeCompletes(m, r, future);
    case ReadBody(size, _) =>
      DataCompletes(m, r, size, future);
    case ReadTrailer =>
      TrailerCompletes(m, r, future);
    case ReadPlain(_, _) =>
  }

  lemma WfChunksHaveData(m: Message)
    requires Wf(m)
    ensures WfChunks(m)
  {
    forall i | 0 <= i < |m.chunks| ensures 0 < |m.chunks[i].data| {
      assert WfChunk(m.chunks[i]);
    }
  }

  predicate WfChunks(m: Message) { forall i | 0 <= i < |m.chunks| :: 0 < |m.chunks[i].data| }

  lemma NotInEmpty(d: string)
    requires d != ""
    ensures !Contains("", d)
  {}

  // ----- Every run

  lemma {:induction false} RunTracks(m: Message, es: seq<Event>, future: string)
    requires Wf(m) && IsRun(es) && Received(es) + future == Stream(m)
    ensures Tracks(m, After(es), future)
  {
    if es == [] {
      assert Received(es) + future == future;
      StartTracks(m, future);
    } else {
      var front, e := es[..|es| - 1], es[|es| - 1];
      hide Wf, Tracks, Stream, Reader.Complete, Reader.Enabled;
      match e
      case Completes =>
        assert Received(es) == Received(front);
        RunTracks(m, front, future);
        CompleteTracks(m, After(front), future);
      case Arrives(bytes) =>
        Assoc(Received(front), bytes, future);
        RunTracks(m, front, bytes + future);
        ArriveTracks(m, After(front), bytes, future);
    }
  }

  lemma StartTracks(m: Message, future: string)
    requires future == Stream(m)
    ensures Tracks(m, START, future)
  {
    assert START.sb + future == future;
  }

  lemma ArriveTracks(m: Message, r: Reader, bytes: string, future: string)
    requires Tracks(m, r, bytes + future)
    ensures Tracks(m, r.Arrive(bytes), future)
  {
    hide Body, HeadOf, Stream, Tail;
    Assoc(r.sb, bytes, future);
    if bytes + future == "" { assert bytes == "" && r.sb + bytes == r.sb; }
  }

  /** At every moment of every run the handler has been called for a prefix of the nonzero
      chunks, in order, with exactly the chunk's bytes and its CRLF; no byte is lost; and the
      size line is never retried. */
  lemma {:induction false} DeliversPrefix(m: Message, es: seq<Event>, future: string)
    requires Wf(m) && IsRun(es) && Received(es) + future == Stream(m)
    ensures CallsAre(m, After(es).calls)
    ensures After(es).consumed + After(es).sb == Received(es)
    ensures !Retries(After(es))
  {
    hide Wf, Stream, Run, Received;
    RunTracks(m, es, future);
    Conservation(es);
    TracksNeverRetries(m, After(es), future);
  }

  lemma {:induction false} StreamSplit(m: Message, k: nat)
    requires k <= |m.chunks|
    ensures Stream(m) == Front(m, k) + Body(m, k)
  {
    hide HeadText, ChunkText, Tail;
    if k > 0 {
      StreamSplit(m, k - 1);
      NextChunk(m, k - 1);
      hide *;
      Assoc(Front(m, k - 1), ChunkText(m.chunks[k - 1]), Body(m, k));
    }
  }

  lemma NextChunk(m: Message, k: nat)
    requires k < |m.chunks|
    ensures Front(m, k + 1) == Front(m, k) + ChunkText(m.chunks[k])
    ensures Body(m, k) == ChunkText(m.chunks[k]) + Body(m, k + 1)
  {
    hide HeadText, ChunkText, Tail;
  }

  lemma {:induction false} FrontGrows(m: Message, j: nat, k: nat)
    requires j <= k <= |m.chunks|
    ensures |Front(m, j)| <= |Front(m, k)|
  {
    if j < k { FrontGrows(m, j, k - 1); }
  }

  /** Whenever no completion is enabled, every chunk that has arrived with its CRLF has been
      delivered. */
  lemma QuiescentDelivered(m: Message, es: seq<Event>, future: string, j: nat)
    requires Wf(m) && IsRun(es) && Received(es) + future == Stream(m)
    requires !After(es).Enabled()
    requires j <= |m.chunks| && |Front(m, j)| <= |Received(es)|
    ensures j <= |After(es).calls|
  {
    hide Wf, Stream, Front, Body, HeadOf, Tail, Received, Run;
    RunTracks(m, es, future);
    var r := After(es);
    var k := |r.calls|;
    if j > k {
      FrontGrows(m, k + 1, j);
      StreamSplit(m, k);
      ChunkIncomplete(m, r, future, |Received(es)|);
    }
  }

  /** A quiescent reader in front of chunk `k` has not received the whole of it. */
  lemma ChunkIncomplete(m: Message, r: Reader, future: string, received: nat)
    requires Wf(m) && Tracks(m, r, future) && !r.Enabled() && |r.calls| < |m.chunks|
    requires received + |future| == |Front(m, |r.calls|) + Body(m, |r.calls|)|
    ensures received < |Front(m, |r.calls| + 1)|
  {
    var k := |r.calls|;
    assert |Front(m, k + 1)| == |Front(m, k)| + |ChunkText(m.chunks[k])|;
    assert |Body(m, k)| == |ChunkText(m.chunks[k])| + |Body(m, k + 1)|;
    hide Contains, Front, HeadOf, HeadText;
    match r.pending
    case ReadHead =>
      HeadNotArrived(m, r.sb, future);
      StreamSplit(m, k);
      FrontGrows(m, 0, k + 1);
      assert |Front(m, 0)| == |HeadText(m.line, m.fields)| by { HeadIsFront(m); }
    case ReadSize =>
      var size, ext, n, after := SizeLineOf(m, k);
      SizeLineArrives(size, ext, n, after, r.sb, future);
    case ReadBody(size, _) =>
  }

  lemma HeadIsFront(m: Message)
    ensures Front(m, 0) == HeadText(m.line, m.fields)
  {}

  lemma HeadNotArrived(m: Message, buf: string, future: string)
    requires Wf(m) && buf + future == Stream(m) && !Contains(buf, EOL2)
    ensures |buf| < |HeadText(m.line, m.fields)|
  {
    hide HeadText, Body, Contains;
    HeadArrives(m.line, m.fields, Body(m, 0), buf, future);
  }

  /** Once the whole response has arrived and no completion is enabled, the handler has been called
      once per nonzero chunk and never for the zero chunk or the trailer. */
  lemma AllDelivered(m: Message, es: seq<Event>)
    requires Wf(m) && IsRun(es) && Received(es) == Stream(m) && !After(es).Enabled()
    ensures After(es).calls == seq(|m.chunks|, i requires 0 <= i < |m.chunks| => Delivery(m, i))
  {
    hide Wf, Stream, Front, Body, Run, Reader.Enabled, Received, Delivery;
    assert Received(es) + "" == Stream(m);
    DeliversPrefix(m, es, "");
    StreamSplit(m, |m.chunks|);
    QuiescentDelivered(m, es, "", |m.chunks|);
  }

  /** So how the bytes were cut into arrivals and when completions ran does not matter. */
  lemma {:induction false} SplitIndependent(m: Message, es: seq<Event>, es': seq<Event>)
    requires Wf(m) && IsRun(es) && IsRun(es') && Received(es) == Received(es') == Stream(m)
    requires !After(es).Enabled() && !After(es').Enabled()
    ensures After(es).calls == After(es').calls
  {
    hide Wf, Stream, Run, Reader.Enabled, Received;
    AllDelivered(m, es);
    AllDelivered(m, es');
  }

  /** What is left in the end: without a trailer the reader goes on waiting, the closing line end still buffered; with
      one, whose first name is a token, every byte has been consumed. */
  lemma {:induction false} InTheEnd(m: Message, es: seq<Event>)
    requires Wf(m) && IsRun(es) && Received(es) == Stream(m) && !After(es).Enabled()
    ensures m.trailer == [] ==> After(es).pending.ReadTrailer? && After(es).sb == "\r\n"
    ensures m.trailer != [] && '/' !in m.trailer[0].0 ==> After(es).sb == "" && After(es).consumed == Stream(m)
  {
    var r := After(es);
    assert Received(es) + "" == Received(es) && r.sb + "" == r.sb;
    Conservation(es);
    assert r.sb == "" ==> r.consumed + r.sb == r.consumed;
    hide Wf, Stream, Body, HeadOf, Received, Run, Contains;
    RunTracks(m, es, "");
    AllDelivered(m, es);
    EndPending(m, r);
  }

  lemma {:induction false} EndPending(m: Message, r: Reader)
    requires Wf(m) && Tracks(m, r, "") && !r.Enabled() && |r.calls| == |m.chunks|
    ensures m.trailer == [] ==> r.pending.ReadTrailer? && r.sb == "\r\n"
    ensures m.trailer != [] && '/' !in m.trailer[0].0 ==> r.sb == ""
  {
    assert r.sb + "" == r.sb;
    hide Wf, Contains, HeadOf;
    match r.pending
    case ReadHead =>
      if r.sb == Stream(m) { HeadNotArrived(m, r.sb, ""); }
      if r.sb == Tail(m) { TrailerArrives(m, r.sb, ""); }
    case ReadSize =>
      if r.sb == Body(m, |r.calls|) {
        var size, ext, n, after := SizeLineOf(m, |r.calls|);
        SizeLineArrives(size, ext, n, after, r.sb, "");
      }
    case ReadBody(size, _) =>
    case ReadTrailer =>
      TrailerArrives(m, r.sb, "");
      if m.trailer == [] { assert Tail(m) == CRLF; }
    case ReadPlain(_, _) =>
    case Idle =>
  }

  lemma {:induction false} DrainTracks(m: Message, r: Reader, future: string, n: nat)
    requires Wf(m) && Tracks(m, r, future) && Drain(r, n).Some?
    ensures Tracks(m, Drain(r, n).value, future)
    decreases n
  {
    hide Wf, Tracks, Reader.Complete, Reader.Enabled;
    assert r.Valid() by { TracksIsValid(m, r, future); }
    if n > 0 {
      CompleteTracks(m, r, future);
      DrainTracks(m, r.Complete(), future, n - 1);
    }
  }

  lemma TracksIsValid(m: Message, r: Reader, future: string)
    requires Tracks(m, r, future)
    ensures r.Valid()
  {}

  /** Between two arrivals of such a response only finitely many completions can run. */
  lemma {:induction false} CompletionsBounded(m: Message, es: seq<Event>, future: string, n: nat)
    requires Wf(m) && IsRun(es) && Received(es) + future == Stream(m)
    requires Drain(After(es), n).Some?
    ensures n <= 5 * |After(es).sb| + Phase(After(es).pending)
  {
    hide Wf, Stream, Run, Reader.Enabled, Received, Tracks, Drain, Phase;
    var r := After(es);
    RunTracks(m, es, future);
    DrainBounded(r, n);
    if k :| 0 <= k < n && RetryAfter(r, k) {
      DrainTracks(m, r, future, k);
      TracksNeverRetries(m, Drain(r, k).value, future);
    }
  }

  lemma TracksNeverRetries(m: Message, r: Reader, future: string)
    requires Wf(m) && Tracks(m, r, future)
    ensures !Retries(r)
  {
    hide Wf;
    if r.pending.ReadSize? && r.sb != "" {
      var size, ext, n, after := SizeLineOf(m, |r.calls|);
      assert IsHex(size[0]) && (r.sb + future)[0] == size[0];
    }
  }

  // ----- A lone response with a plain body

  datatype PlainMessage = PlainMessage(line: StatusLine, fields: seq<(string, string)>, body: string)

  /** Any spelling of the length that `lexical_cast` reads back as the body's. */
  predicate WfPlain(m: PlainMessage) {
    WfStatus(m.line) && WfFields(m.fields) &&
    FieldValue(m.fields, "Transfer-Encoding", "") != "chunked" &&
    LexicalSize(FieldValue(m.fields, "Content-Length", "0")) == Some(|m.body|)
  }

  function PlainStream(m: PlainMessage): string { HeadText(m.line, m.fields) + m.body }

  function PlainCall(m: PlainMessage): Response { Response(HeadOf(m.line, m.fields), m.body) }

  predicate TracksPlain(m: PlainMessage, r: Reader, future: string) {
    r.Valid() && (
      (r.pending.ReadHead? && r.calls == [] && r.sb + future == PlainStream(m)) ||
      (r.pending.ReadPlain? && r.pending.length == r.pending.target == |m.body| && r.calls == [] &&
       r.res.head == HeadOf(m.line, m.fields) && r.sb + future == m.body) ||
      (r.pending.ReadHead? && m.body != "" && r.calls == [PlainCall(m)] && r.sb == future == "") ||
      (r.pending.Idle? && m.body == "" && r.calls == [] && r.sb == future == ""))
  }

  lemma PlainCompletes(m: PlainMessage, r: Reader, future: string)
    requires WfPlain(m) && TracksPlain(m, r, future) && r.Enabled()
    ensures TracksPlain(m, r.Complete(), future)
  {
    NotInEmpty(EOL2);
    if r.pending.ReadHead? {
      PlainHeadCompletes(m, r, future);
    } else {
      assert r.sb + future == m.body && |r.sb| >= |m.body| ==> future == "" && r.sb == m.body;
    }
  }

  lemma {:induction false} PlainHeadCompletes(m: PlainMessage, r: Reader, future: string)
    requires WfPlain(m) && r.pending.ReadHead? && r.Enabled() && r.calls == [] && r.sb + future == PlainStream(m)
    ensures TracksPlain(m, r.Complete(), future)
  {
    hide ParseHeader, WfStatus, WfFields, HeadLines, Lines, FirstWins, Contains, LexicalSize;
    LookupIs(m.fields, "Transfer-Encoding", "");
    LookupIs(m.fields, "Content-Length", "0");
    HeadArrives(m.line, m.fields, m.body, r.sb, future);
    var text := HeadText(m.line, m.fields);
    Cut(text, m.body, r.sb, future);
    var rest := r.sb[|text|..];
    HeaderParses(m.line, m.fields, rest);
    assert |r.sb| - |rest| == |text|;
  }

  lemma {:induction false} PlainRunTracks(m: PlainMessage, es: seq<Event>, future: string)
    requires WfPlain(m) && IsRun(es) && Received(es) + future == PlainStream(m)
    ensures TracksPlain(m, After(es), future)
  {
    if es == [] {
      assert Received(es) + future == future && START.sb + future == future;
    } else {
      var front, e := es[..|es| - 1], es[|es| - 1];
      hide WfPlain, TracksPlain, PlainStream, Reader.Complete, Reader.Enabled;
      match e
      case Completes =>
        assert Received(es) == Received(front);
        PlainRunTracks(m, front, future);
        PlainCompletes(m, After(front), future);
      case Arrives(bytes) =>
        Assoc(Received(front), bytes, future);
        PlainRunTracks(m, front, bytes + future);
        PlainArrives(m, After(front), bytes, future);
    }
  }

  lemma PlainArrives(m: PlainMessage, r: Reader, bytes: string, future: string)
    requires TracksPlain(m, r, bytes + future)
    ensures TracksPlain(m, r.Arrive(bytes), future)
  {
    hide HeadOf, PlainStream;
    Assoc(r.sb, bytes, future);
    if bytes + future == "" { assert bytes == "" && r.sb + bytes == r.sb; }
  }

  /** A lone response with Content-Length n is delivered at most once, and then with exactly its n
      bytes; once everything has arrived and nothing more completes it has been delivered
      if and only if n is not zero. */
  lemma PlainDelivered(m: PlainMessage, es: seq<Event>, future: string)
    requires WfPlain(m) && IsRun(es) && Received(es) + future == PlainStream(m)
    ensures After(es).calls == [] || After(es).calls == [PlainCall(m)]
    ensures future == "" && !After(es).Enabled() ==> (After(es).calls == [PlainCall(m)] <==> m.body != "")
  {
    hide WfStatus, WfFields, HeadOf, HeadText, Contains, Run, LexicalSize;
    PlainRunTracks(m, es, future);
    var r := After(es);
    if future == "" && !r.Enabled() {
      assert r.sb + future == r.sb;
      if r.pending.ReadHead? && r.sb == PlainStream(m) {
        HeadArrives(m.line, m.fields, m.body, r.sb, future);
      }
    }
  }

  /** A length printed in decimal is one of the spellings. */
  lemma {:induction false} PrintedLengthFits(m: PlainMessage)
    requires WfStatus(m.line) && WfFields(m.fields) && |m.body| < 18446744073709551616
    requires FieldValue(m.fields, "Transfer-Encoding", "") != "chunked"
    requires FieldValue(m.fields, "Content-Length", "0") == Digits(|m.body|)
    ensures WfPlain(m)
  {
    hide Digits, FirstWins, WfStatus, WfFields, LexicalSize;
    DigitsAreLexical(|m.body|);
  }

  // ----- A plain body with more bytes behind it

  /** The response and the surplus, with nothing of it read yet. */
  predicate BeforeHead(m: PlainMessage, surplus: string, r: Reader, future: string) {
    r.Valid() && r.pending.ReadHead? && r.calls == [] && r.sb + future == PlainStream(m) + surplus
  }

  /** The body read waits for 2^64 bytes more than the body has. */
  predicate Stalled(m: PlainMessage, surplus: string, r: Reader, future: string) {
    r.pending == ReadPlain(|m.body|, |m.body| + TWO64) && r.calls == [] && r.sb + future == m.body + surplus
  }

  /** The body read waits for the body, or the body has been handled; an empty body that met an empty buffer
      has stopped the reader. */
  predicate OnItsWay(m: PlainMessage, surplus: string, r: Reader, future: string) {
    r.Valid() && (
      (r.pending == ReadPlain(|m.body|, |m.body|) && r.calls == [] &&
       r.res.head == HeadOf(m.line, m.fields) && r.sb + future == m.body + surplus) ||
      [PlainCall(m)] <= r.calls ||
      (m.body == "" && r.pending.Idle? && r.calls == []))
  }

  /** What decides: whether more than the body is behind the head when the head is read. */
  lemma {:induction false} SurplusHeadCompletes(m: PlainMessage, surplus: string, r: Reader, future: string)
    requires WfPlain(m) && |m.body + surplus| < TWO64 && BeforeHead(m, surplus, r, future) && r.Enabled()
    ensures |r.sb| >= |HeadText(m.line, m.fields)|
    ensures if |r.sb| - |HeadText(m.line, m.fields)| > |m.body| then Stalled(m, surplus, r.Complete(), future)
            else OnItsWay(m, surplus, r.Complete(), future)
  {
    hide ParseHeader, WfStatus, WfFields, HeadLines, Lines, FirstWins, Contains, LexicalSize;
    var text, all := HeadText(m.line, m.fields), m.body + surplus;
    LookupIs(m.fields, "Transfer-Encoding", "");
    LookupIs(m.fields, "Content-Length", "0");
    Assoc(text, m.body, surplus);
    HeadArrives(m.line, m.fields, all, r.sb, future);
    Cut(text, all, r.sb, future);
    var rest := r.sb[|text|..];
    HeaderParses(m.line, m.fields, rest);
    assert |r.sb| - |rest| == |text|;
  }

  lemma {:induction false} StalledStays(m: PlainMessage, surplus: string, r: Reader, e: Event, future: string)
    requires |m.body + surplus| < TWO64 && r.Valid() && Step(r, e).Some?
    requires Stalled(m, surplus, r, (if e.Arrives? then e.bytes else "") + future)
    ensures Stalled(m, surplus, Step(r, e).value, future)
  {
    if e.Arrives? { Assoc(r.sb, e.bytes, future); }
  }

  lemma {:induction false} CallsGrow(r: Reader, e: Event)
    requires r.Valid() && Step(r, e).Some?
    ensures r.calls <= Step(r, e).value.calls
  {
    hide ParseHeader, ParseChunkSize, Contains, LexicalSize, PlainTarget;
  }

  lemma {:induction false} OnItsWayStays(m: PlainMessage, surplus: string, r: Reader, e: Event, future: string)
    requires r.Valid() && Step(r, e).Some?
    requires OnItsWay(m, surplus, r, (if e.Arrives? then e.bytes else "") + future)
    ensures OnItsWay(m, surplus, Step(r, e).value, future)
  {
    CallsGrow(r, e);
    if [PlainCall(m)] <= r.calls {
      hide Reader.Complete, Reader.Enabled, HeadOf;
      assert r.calls[0] == PlainCall(m);
    } else if e.Arrives? {
      Assoc(r.sb, e.bytes, future);
    } else {
      assert "" + future == future;
      hide HeadOf;
      if r.pending.ReadPlain? { BodyIsFirst(m, surplus, r, future); }
    }
  }

  lemma {:induction false} BodyIsFirst(m: PlainMessage, surplus: string, r: Reader, future: string)
    requires r.pending == ReadPlain(|m.body|, |m.body|) && r.calls == [] && |r.sb| >= |m.body|
    requires r.res.head == HeadOf(m.line, m.fields) && r.sb + future == m.body + surplus
    ensures r.sb[..|m.body|] == m.body
    ensures r.PlainBodyReadComplete(|m.body|).calls == [PlainCall(m)] ||
            (m.body == "" && r.PlainBodyReadComplete(|m.body|) == r.Wait(Idle))
  {
    assert r.sb[..|m.body|] == (r.sb + future)[..|m.body|];
    hide HeadOf;
  }

  /** Up to the completion of the head: nothing has been read, or that completion already lies behind. */
  lemma {:induction false} SurplusRun(m: PlainMessage, surplus: string, es: seq<Event>, future: string)
    requires WfPlain(m) && |m.body + surplus| < TWO64 && IsRun(es)
    requires Received(es) + future == PlainStream(m) + surplus
    ensures var r := After(es);
      BeforeHead(m, surplus, r, future) || Stalled(m, surplus, r, future) || OnItsWay(m, surplus, r, future)
  {
    if es == [] {
      assert Received(es) + future == future && START.sb + future == future;
    } else {
      var front, e := es[..|es| - 1], es[|es| - 1];
      var bytes := if e.Arrives? then e.bytes else "";
      assert Received(es) == Received(front) + bytes;
      assert Run(es) == Step(After(front), e);
      hide WfPlain, PlainStream, BeforeHead, Stalled, OnItsWay, Reader.Complete, Reader.Enabled, Received, Run, Step;
      Assoc(Received(front), bytes, future);
      SurplusRun(m, surplus, front, bytes + future);
      SurplusStep(m, surplus, After(front), e, future);
    }
  }

  lemma {:induction false} SurplusStep(m: PlainMessage, surplus: string, r: Reader, e: Event, future: string)
    requires WfPlain(m) && |m.body + surplus| < TWO64 && r.Valid() && Step(r, e).Some?
    requires var f := (if e.Arrives? then e.bytes else "") + future;
      BeforeHead(m, surplus, r, f) || Stalled(m, surplus, r, f) || OnItsWay(m, surplus, r, f)
    ensures var r' := Step(r, e).value;
      BeforeHead(m, surplus, r', future) || Stalled(m, surplus, r', future) || OnItsWay(m, surplus, r', future)
  {
    var f := (if e.Arrives? then e.bytes else "") + future;
    if Stalled(m, surplus, r, f) {
      hide OnItsWay, Stalled, BeforeHead, Step, WfPlain;
      StalledStays(m, surplus, r, e, future);
    } else if OnItsWay(m, surplus, r, f) {
      hide OnItsWay, Stalled, BeforeHead, Step, WfPlain;
      OnItsWayStays(m, surplus, r, e, future);
    } else if e.Arrives? {
      hide OnItsWay, Stalled, WfPlain, PlainStream;
      Assoc(r.sb, e.bytes, future);
    } else {
      assert "" + future == future;
      hide OnItsWay, Stalled, BeforeHead, WfPlain, Reader.Complete;
      SurplusHeadCompletes(m, surplus, r, future);
    }
  }

  lemma {:induction false} RunFront(es: seq<Event>)
    requires es != [] && IsRun(es)
    ensures var front, e := es[..|es| - 1], es[|es| - 1];
      IsRun(front) && Run(es) == Step(After(front), e) &&
      Received(es) == Received(front) + if e.Arrives? then e.bytes else ""
  {
    hide Step;
  }

  /** The reader after the head has completed at the end of `before` and `after` has followed. */
  lemma {:induction false} AfterHeadRun(
      m: PlainMessage, surplus: string, before: seq<Event>, after: seq<Event>, future: string)
    requires WfPlain(m) && |m.body + surplus| < TWO64 && IsRun(before) && IsRun(before + [Completes] + after)
    requires After(before).pending.ReadHead? && After(before).calls == []
    requires Received(before + [Completes] + after) + future == PlainStream(m) + surplus
    ensures |After(before).sb| >= |HeadText(m.line, m.fields)|
    ensures var r := After(before + [Completes] + after);
      if |After(before).sb| - |HeadText(m.line, m.fields)| > |m.body| then Stalled(m, surplus, r, future)
      else OnItsWay(m, surplus, r, future)
    decreases |after|
  {
    var es := before + [Completes] + after;
    var front, e := es[..|es| - 1], es[|es| - 1];
    var bytes := if e.Arrives? then e.bytes else "";
    hide WfPlain, PlainStream, Reader.Complete, Reader.Enabled, Received, Run, HeadText;
    RunFront(es);
    Assoc(Received(front), bytes, future);
    if after == [] {
      assert front == before && e == Completes && "" + future == future;
      SurplusRun(m, surplus, before, future);
      assert BeforeHead(m, surplus, After(before), future);
      SurplusHeadCompletes(m, surplus, After(before), future);
    } else {
      hide Stalled, OnItsWay, Step;
      var shorter := after[..|after| - 1];
      assert front == before + [Completes] + shorter;
      AfterHeadRun(m, surplus, before, shorter, bytes + future);
      if |After(before).sb| - |HeadText(m.line, m.fields)| > |m.body| {
        StalledStays(m, surplus, After(front), e, future);
      } else {
        OnItsWayStays(m, surplus, After(front), e, future);
      }
    }
  }

  /** In every run, a nonempty body is never handled if more than the body was behind the head when the head
      completed, whatever happens afterwards; otherwise, once everything has arrived and no
      completion is enabled, it was the first to be handled. So it stalls if and only if that is
      the case. */
  lemma {:induction false} SurplusStalls(
      m: PlainMessage, surplus: string, before: seq<Event>, after: seq<Event>, future: string)
    requires WfPlain(m) && m.body != "" && |m.body + surplus| < TWO64
    requires IsRun(before) && IsRun(before + [Completes] + after)
    requires After(before).pending.ReadHead? && After(before).calls == []
    requires Received(before + [Completes] + after) + future == PlainStream(m) + surplus
    ensures var behind := |After(before).sb| - |HeadText(m.line, m.fields)|;
      var r := After(before + [Completes] + after);
      (behind > |m.body| ==> r.calls == [] && !r.Enabled()) &&
      (r.calls == [] || r.calls[0] == PlainCall(m)) &&
      (future == "" && !r.Enabled() ==> (r.calls == [] <==> behind > |m.body|))
  {
    hide WfPlain, PlainStream, Received, Run, HeadText, HeadOf;
    AfterHeadRun(m, surplus, before, after, future);
    var r := After(before + [Completes] + after);
    assert r.sb + "" == r.sb;
  }

  /** Such a run exists for every response and every surplus: all of it arrives before the head is read. */
  lemma {:induction false} SurplusCanStall(m: PlainMessage, surplus: string)
    requires WfPlain(m) && surplus != "" && |m.body + surplus| < TWO64
    ensures var es := [Arrives(PlainStream(m) + surplus), Completes];
      IsRun(es) && Received(es) == PlainStream(m) + surplus && After(es).calls == [] && !After(es).Enabled()
  {
    var text, all := HeadText(m.line, m.fields), PlainStream(m) + surplus;
    var r := START.Arrive(all);
    ArriveAndComplete(all);
    assert r.sb == all && all + "" == all;
    Assoc(text, m.body, surplus);
    assert m.body + surplus + "" == m.body + surplus;
    assert WfStatus(m.line) && WfFields(m.fields);
    assert BeforeHead(m, surplus, r, "");
    HeadArrives(m.line, m.fields, m.body + surplus, all, "");
    assert |all| - |text| == |m.body| + |surplus|;
    hide WfPlain, PlainStream, Reader.Complete, HeadText, Received, Run, BeforeHead, Contains;
    SurplusHeadCompletes(m, surplus, r, "");
    assert r.Complete().sb + "" == r.Complete().sb;
  }

  /** Everything arrives, then one completion. */
  lemma ArriveAndComplete(bytes: string)
    ensures var es := [Arrives(bytes), Completes];
      var r := START.Arrive(bytes);
      Received(es) == bytes && Run(es) == if r.Enabled() then Some(r.Complete()) else None
  {
    var es := [Arrives(bytes), Completes];
    assert es[..1] == [Arrives(bytes)] && es[..1][..0] == [];
    assert "" + bytes == bytes && bytes + "" == bytes;
    assert Received(es) == Received(es[..1]) + "" && Received(es[..1]) == Received([]) + bytes;
    hide Reader.Complete, Reader.Enabled;
    assert Run(es[..1]) == Some(START.Arrive(bytes));
  }

  /** And the endless retry is met: by a chunked head with a bare CRLF where the first size line should be. However
      often the read completes, nothing changes any more. */
  lemma {:induction false} RetryIsMet(line: StatusLine, fields: seq<(string, string)>, n: nat)
    requires WfStatus(line) && WfFields(fields)
    requires FieldValue(fields, "Transfer-Encoding", "") == "chunked"
    ensures var es := [Arrives(HeadText(line, fields) + CRLF), Completes];
      IsRun(es) && Retries(After(es)) && After(es).calls == [] && Drain(After(es), n) == Some(After(es))
  {
    var text := HeadText(line, fields);
    var all := text + CRLF;
    var r := START.Arrive(all);
    ArriveAndComplete(all);
    assert r.sb == all && all + "" == all;
    HeadArrives(line, fields, CRLF, all, "");
    ChunkedHeadCompletes(line, fields, r, CRLF);
    hide HeadText, Reader.Complete, Run;
    RetryForever(r.Complete(), n);
  }

  lemma {:induction false} ChunkedHeadCompletes(
      line: StatusLine, fields: seq<(string, string)>, r: Reader, rest: string)
    requires WfStatus(line) && WfFields(fields) && r.pending.ReadHead? && r.Enabled()
    requires FieldValue(fields, "Transfer-Encoding", "") == "chunked"
    requires r.sb == HeadText(line, fields) + rest
    ensures r.Complete().pending.ReadSize? && r.Complete().sb == rest && r.Complete().calls == r.calls
  {
    hide ParseHeader, WfStatus, WfFields, HeadLines, Lines, FirstWins, Contains, LexicalSize;
    LookupIs(fields, "Transfer-Encoding", "");
    HeaderParses(line, fields, rest);
    TakeDrop(HeadText(line, fields), rest);
  }

  lemma {:induction false} RetryForever(r: Reader, n: nat)
    requires r.Valid() && Retries(r)
    ensures Drain(r, n) == Some(r)
  {
    if n > 0 {
      assert At(CRLF, 0, CRLF) && r.Enabled();
      CompleteDecreases(r);
      hide Reader.Complete, Reader.Enabled;
      RetryForever(r, n - 1);
    }
  }
}
