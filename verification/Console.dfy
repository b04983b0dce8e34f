/**
 The line editor of the console: typed bytes are appended to a line, backspaces cancel, one finished line
 per read goes to the pipe. Single-byte characters, so that the wide-character detour is the
 identity.
 */
module Console {
  import opened Text

  const BS: char := 8 as char

  predicate NotBs(c: char) { c != BS }

  /** One turn of the rewriting loop: the first backspace and the character before it go. `None` when there
      is no character before it, where the source pops from an empty vector. */
  function Rewrite(line: string): Option<string>
    requires !All(line, NotBs)
  {
    var pos := Span(line, NotBs);
    if pos == 0 || pos == |line| then None else Some(line[..pos - 1] + line[pos + 1..])
  }

  function Count(s: string): nat {
    if s == "" then 0 else Count(s[1..]) + (if s[0] == BS then 1 else 0)
  }

  lemma {:induction false} CountZero(s: string)
    ensures Count(s) == 0 <==> All(s, NotBs)
  {
    if s != "" {
      CountZero(s[1..]);
      assert All(s, NotBs) <==> NotBs(s[0]) && All(s[1..], NotBs) by {
        assert forall i | 0 < i < |s| :: s[i] == s[1..][i - 1];
        assert forall i | 0 <= i < |s[1..]| :: s[1..][i] == s[i + 1];
      }
    }
  }

  lemma {:induction false} CountAppend(a: string, b: string)
    ensures Count(a + b) == Count(a) + Count(b)
  {
    if a == "" {
      assert a + b == b;
    } else {
      CountAppend(a[1..], b);
      assert (a + b)[1..] == a[1..] + b;
    }
  }

  /** A rewriting removes exactly one backspace. */
  lemma RewriteCounts(line: string)
    requires !All(line, NotBs) && Rewrite(line).Some?
    ensures Count(Rewrite(line).value) == Count(line) - 1
  {
    var pos := Span(line, NotBs);
    var a, c, b := line[..pos - 1], line[pos - 1..pos + 1], line[pos + 1..];
    assert line[pos - 1] == line[..pos][pos - 1];
    assert line == a + (c + b);
    CountAppend(a, c + b);
    CountAppend(c, b);
    CountAppend(a, b);
    assert c == [line[pos - 1], BS] && c[1..] == [BS] && c[1..][1..] == "";
    assert Count(c) == 1;
  }

  /** All backspaces worked off; `None` when one of them finds nothing to cancel. */
  function Edited(line: string): Option<string>
    decreases Count(line)
  {
    CountZero(line);
    if All(line, NotBs) then Some(line)
    else
      var r := Rewrite(line);
      if r.None? then None else RewriteCounts(line); Edited(r.value)
  }

  // ----- The stack-style specification

  /** Typing one character onto surviving text: a backspace cancels the nearest survivor. */
  function Type(s: string, c: char): Option<string> {
    if c as int != 0x08 then Some(s + [c]) else if s == "" then None else Some(s[..|s| - 1])
  }

  function TypeAll(s: string, typed: string): Option<string>
    decreases |typed|
  {
    if typed == "" then Some(s)
    else
      var r := Type(s, typed[0]);
      if r.None? then None else TypeAll(r.value, typed[1..])
  }

  lemma {:induction false} TypeAppend(s: string, a: string, b: string)
    ensures TypeAll(s, a + b) == if TypeAll(s, a).None? then None else TypeAll(TypeAll(s, a).value, b)
    decreases |a|
  {
    if a == "" {
      assert a + b == b;
    } else {
      assert (a + b)[1..] == a[1..] + b;
      var r := Type(s, a[0]);
      if r.Some? { TypeAppend(r.value, a[1..], b); }
    }
  }

  lemma {:induction false} TypePlain(s: string, a: string)
    requires All(a, NotBs)
    ensures TypeAll(s, a) == Some(s + a)
    decreases |a|
  {
    if a == "" {
      assert s + a == s;
    } else {
      assert NotBs(a[0]) && forall i | 0 <= i < |a[1..]| :: a[1..][i] == a[i + 1];
      TypePlain(s + [a[0]], a[1..]);
      assert s + [a[0]] + a[1..] == s + a by { assert a == [a[0]] + a[1..]; }
    }
  }

  /** The rewriting loop computes what typing its line from scratch leaves. */
  /** A backspace behind plain text cancels its last character. */
  lemma {:induction false} TypedPast(a: string, b: string)
    requires All(a, NotBs)
    ensures TypeAll("", a + ([BS] + b)) == if a == "" then None else TypeAll("", a[..|a| - 1] + b)
  {
    TypePlain("", a);
    TypeAppend("", a, [BS] + b);
    assert "" + a == a && ([BS] + b)[0] == BS && ([BS] + b)[1..] == b;
    assert TypeAll(a, [BS] + b) == if a == "" then None else TypeAll(a[..|a| - 1], b);
    if a != "" {
      var c := a[..|a| - 1];
      assert All(c, NotBs) by { assert forall i | 0 <= i < |c| :: c[i] == a[i]; }
      TypePlain("", c);
      assert "" + c == c;
      TypeAppend("", c, b);
    }
  }

  lemma {:induction false} EditedIsTyped(line: string)
    ensures Edited(line) == TypeAll("", line)
    decreases Count(line)
  {
    CountZero(line);
    if All(line, NotBs) {
      TypePlain("", line);
      assert "" + line == line;
    } else {
      var pos := Span(line, NotBs);
      var a, b := line[..pos], line[pos + 1..];
      assert line == a + ([BS] + b);
      hide TypeAll;
      TypedPast(a, b);
      if pos > 0 {
        RewriteCounts(line);
        assert a[..pos - 1] == line[..pos - 1];
        EditedIsTyped(a[..pos - 1] + b);
      }
    }
  }

  // ----- Reads

  /** `pipe` is everything sent to the program, `lastline` what is still being edited. */
  datatype Editor = Editor(pipe: string, lastline: string)

  /** `in_handler`: at most one finished line is sent per read. `None` where it pops from nothing. */
  function Read(e: Editor, bytes: string): Option<Editor> {
    match Edited(e.lastline + CrToLf(bytes))
    case None => None
    case Some(line) =>
      var eol := Span(line, NotLf);
      if eol < |line| then Some(Editor(e.pipe + line[..eol + 1], line[eol + 1..]))
      else Some(Editor(e.pipe, line))
  }

  function ReadAll(e: Editor, batches: seq<string>): Option<Editor>
    decreases |batches|
  {
    if batches == [] then Some(e)
    else
      var r := Read(e, batches[0]);
      if r.None? then None else ReadAll(r.value, batches[1..])
  }

  function Concat(batches: seq<string>): string {
    if batches == [] then "" else batches[0] + Concat(batches[1..])
  }

  /** The surviving characters since the last line end. */
  function CurrentLine(s: string): string {
    if s == "" || s[|s| - 1] == '\n' then "" else CurrentLine(s[..|s| - 1]) + [s[|s| - 1]]
  }

  /** No backspace is typed when the characters of its line are used up. */
  predicate Balanced(s: string, typed: string)
    decreases |typed|
  {
    typed == "" ||
    (if typed[0] as int == 0x08 then CurrentLine(s) != "" && Balanced(s[..|s| - 1], typed[1..])
     else Balanced(s + [typed[0]], typed[1..]))
  }

  lemma {:induction false} BalancedAppend(s: string, a: string, b: string)
    ensures Balanced(s, a + b) <==> Balanced(s, a) && TypeAll(s, a).Some? && Balanced(TypeAll(s, a).value, b)
    decreases |a|
  {
    if a == "" {
      assert a + b == b;
    } else {
      assert (a + b)[1..] == a[1..] + b;
      if a[0] != BS {
        BalancedAppend(s + [a[0]], a[1..], b);
      } else if CurrentLine(s) != "" {
        BalancedAppend(s[..|s| - 1], a[1..], b);
      }
    }
  }

  /** A text of whole lines. */
  predicate Finished(p: string) { p == "" || p[|p| - 1] == '\n' }

  lemma {:induction false} CurrentLineAbove(p: string, s: string)
    requires Finished(p)
    ensures CurrentLine(p + s) == CurrentLine(s)
    decreases |s|
  {
    if s == "" {
      assert p + s == p;
    } else {
      var n := |s| - 1;
      assert (p + s)[..|p + s| - 1] == p + s[..n];
      CurrentLineAbove(p, s[..n]);
    }
  }

  /** Finished lines below do not matter: balanced typing above them never reaches down. */
  lemma {:induction false} TypeAbove(p: string, s: string, typed: string)
    requires Finished(p) && Balanced(p + s, typed)
    ensures TypeAll(s, typed).Some? && TypeAll(p + s, typed) == Some(p + TypeAll(s, typed).value)
    ensures Balanced(s, typed)
    decreases |typed|
  {
    CurrentLineAbove(p, s);
    if typed != "" {
      if typed[0] == BS {
        assert s != "";
        assert (p + s)[..|p + s| - 1] == p + s[..|s| - 1];
        TypeAbove(p, s[..|s| - 1], typed[1..]);
      } else {
        assert p + s + [typed[0]] == p + (s + [typed[0]]);
        TypeAbove(p, s + [typed[0]], typed[1..]);
      }
    }
  }

  /** One read on top of the text typed so far. */
  lemma ReadTypes(e: Editor, bytes: string)
    requires Finished(e.pipe) && All(e.lastline, NotBs) && Balanced(e.pipe + e.lastline, CrToLf(bytes))
    ensures Read(e, bytes).Some?
    ensures var r := Read(e, bytes).value;
      Finished(r.pipe) && All(r.lastline, NotBs) &&
      TypeAll(e.pipe + e.lastline, CrToLf(bytes)) == Some(r.pipe + r.lastline)
  {
    var t := CrToLf(bytes);
    EditedIsTyped(e.lastline + t);
    TypeAppend("", e.lastline, t);
    TypePlain("", e.lastline);
    assert "" + e.lastline == e.lastline;
    TypeAbove(e.pipe, e.lastline, t);
    EditedHasNone(e.lastline + t);
    hide Edited, TypeAll, Balanced, CrToLf, All;
    SendLine(e.pipe, TypeAll(e.lastline, t).value);
  }

  lemma {:induction false} SendLine(pipe: string, line: string)
    requires All(line, NotBs)
    ensures var eol := Span(line, NotLf);
      eol < |line| ==>
        Finished(pipe + line[..eol + 1]) && All(line[eol + 1..], NotBs) &&
        pipe + line[..eol + 1] + line[eol + 1..] == pipe + line
  {
    var eol := Span(line, NotLf);
    if eol < |line| {
      var rest := line[eol + 1..];
      assert forall i | 0 <= i < |rest| :: NotBs(line[i + eol + 1]) && rest[i] == line[i + eol + 1];
      assert line == line[..eol + 1] + rest;
      Assoc(pipe, line[..eol + 1], rest);
    }
  }

  lemma {:induction false} EditedHasNone(line: string)
    ensures Edited(line).Some? ==> All(Edited(line).value, NotBs)
    decreases Count(line)
  {
    CountZero(line);
    if !All(line, NotBs) && Rewrite(line).Some? {
      RewriteCounts(line);
      EditedHasNone(Rewrite(line).value);
    }
  }

  lemma {:induction false} ReadsType(e: Editor, batches: seq<string>)
    requires Finished(e.pipe) && All(e.lastline, NotBs) && Balanced(e.pipe + e.lastline, CrToLf(Concat(batches)))
    ensures ReadAll(e, batches).Some?
    ensures var r := ReadAll(e, batches).value;
      TypeAll(e.pipe + e.lastline, CrToLf(Concat(batches))) == Some(r.pipe + r.lastline)
    decreases |batches|
  {
    if batches != [] {
      var a, b := batches[0], Concat(batches[1..]);
      CrToLfAppend(a, b);
      BalancedAppend(e.pipe + e.lastline, CrToLf(a), CrToLf(b));
      TypeAppend(e.pipe + e.lastline, CrToLf(a), CrToLf(b));
      hide Read, TypeAll, Balanced;
      ReadTypes(e, a);
      ReadsType(Read(e, a).value, batches[1..]);
    } else {
      assert CrToLf(Concat(batches)) == "";
    }
  }

  const START: Editor := Editor("", "")

  /** However the typed input is cut into batches: when backspaces never outnumber the characters of their
      line, what went to the pipe followed by the line being edited is the input with CR turned to LF and
      each backspace cancelling the nearest surviving character. */
  lemma PipeAndLineAreTyped(batches: seq<string>)
    requires Balanced("", CrToLf(Concat(batches)))
    ensures ReadAll(START, batches).Some?
    ensures var r := ReadAll(START, batches).value; TypeAll("", CrToLf(Concat(batches))) == Some(r.pipe + r.lastline)
  {
    assert "" + "" == "";
    ReadsType(START, batches);
  }

  /** A read by its edited line. */
  lemma ReadParts(e: Editor, bytes: string) returns (line: string)
    requires Read(e, bytes).Some?
    ensures var eol := Span(line, NotLf);
      (eol < |line| ==> line[eol] == '\n') &&
      Read(e, bytes) == Some(if eol < |line| then Editor(e.pipe + line[..eol + 1], line[eol + 1..])
                             else Editor(e.pipe, line))
  {
    line := Edited(e.lastline + CrToLf(bytes)).value;
    hide Edited, CrToLf, Span, All;
  }

  lemma FreeFront(line: string)
    ensures '\n' !in line[..Span(line, NotLf)]
  {
    Free(line[..Span(line, NotLf)]);
  }

  /** A read sends at most one line, and a whole one. */
  lemma {:induction false} AtMostOneLine(e: Editor, bytes: string)
    requires Read(e, bytes).Some?
    ensures var r := Read(e, bytes).value;
      (r.pipe == e.pipe && '\n' !in r.lastline) ||
      (e.pipe < r.pipe && r.pipe[|r.pipe| - 1] == '\n' && '\n' !in r.pipe[|e.pipe|..|r.pipe| - 1])
  {
    hide *;
    var line := ReadParts(e, bytes);
    var eol := Span(line, NotLf);
    FreeFront(line);
    if eol < |line| {
      SentLine(e.pipe, line, eol);
    } else {
      assert line[..eol] == line;
    }
  }

  lemma SentLine(pipe: string, line: string, eol: nat)
    requires eol < |line| && line[eol] == '\n'
    ensures var p := pipe + line[..eol + 1];
      pipe < p && p[|p| - 1] == '\n' && p[|pipe|..|p| - 1] == line[..eol]
  {
    var p := pipe + line[..eol + 1];
    assert p[|pipe|..|p| - 1] == line[..eol];
  }

  function Singles(s: string): seq<string> { if s == "" then [] else [s[..1]] + Singles(s[1..]) }

  lemma {:induction false} SinglesConcat(s: string)
    ensures Concat(Singles(s)) == s
  {
    if s != "" {
      SinglesConcat(s[1..]);
      assert s == s[..1] + s[1..];
    }
  }

  lemma {:induction false} NoLfIsCurrent(s: string)
    requires All(s, NotLf)
    ensures CurrentLine(s) == s
  {
    if s != "" {
      var n := |s| - 1;
      assert NotLf(s[n]) && s == s[..n] + [s[n]];
      NoLfIsCurrent(s[..n]);
    }
  }

  /** A single character typed onto a line without a line feed. */
  function Typed(e: Editor, d: char): Option<Editor> {
    if d == BS then (if e.lastline == "" then None else Some(Editor(e.pipe, e.lastline[..|e.lastline| - 1])))
    else if d == '\n' then Some(Editor(e.pipe + (e.lastline + "\n"), ""))
    else Some(Editor(e.pipe, e.lastline + [d]))
  }

  /** One character more on an edited line is one character typed. */
  lemma {:induction false} EditOne(l: string, d: char)
    requires All(l, NotBs)
    ensures Edited(l + [d]) == Type(l, d)
  {
    EditedIsTyped(l + [d]);
    TypeAppend("", l, [d]);
    TypePlain("", l);
    assert "" + l == l && [d][1..] == "";
    assert TypeAll(l, [d]) == Type(l, d);
  }

  lemma {:induction false} NoLfSpan(s: string)
    requires All(s, NotLf)
    ensures Span(s, NotLf) == |s|
  {
    SpanOf(s, "", NotLf);
    assert s + "" == s;
  }

  /** A line without its last character, and one with a character more, are still one line. */
  lemma {:induction false} StillOneLine(l: string, d: char)
    requires All(l, NotLf)
    ensures l != "" ==> Span(l[..|l| - 1], NotLf) == |l| - 1
    ensures if d == '\n' then Span(l + [d], NotLf) == |l| else Span(l + [d], NotLf) == |l| + 1
    ensures (l + [d])[..|l|] == l && (l + [d])[..|l| + 1] == l + [d] && (l + [d])[|l| + 1..] == ""
  {
    if l != "" {
      assert forall i | 0 <= i < |l| - 1 :: l[..|l| - 1][i] == l[i];
      NoLfSpan(l[..|l| - 1]);
    }
    if d == '\n' { SpanOf(l, [d], NotLf); } else { NoLfSpan(l + [d]); }
  }

  lemma {:induction false} ReadOne(e: Editor, c: char)
    requires All(e.lastline, NotBs) && All(e.lastline, NotLf)
    ensures var d := if c == '\r' then '\n' else c; CrToLf([c]) == [d] && Read(e, [c]) == Typed(e, d)
  {
    hide Edited, CrToLf, Span, All;
    CrToLfOne(c);
    var d := if c == '\r' then '\n' else c;
    EditOne(e.lastline, d);
    StillOneLine(e.lastline, d);
    assert d == '\n' ==> [d] == "\n";
  }

  /** Typed one character per read, every other input pops from an empty vector. */
  lemma {:induction false} SinglesFail(e: Editor, s: string)
    requires Finished(e.pipe) && All(e.lastline, NotBs) && All(e.lastline, NotLf)
    requires !Balanced(e.pipe + e.lastline, CrToLf(s))
    ensures ReadAll(e, Singles(s)).None?
    decreases |s|
  {
    var c, l, t := s[0], e.lastline, e.pipe + e.lastline;
    ReadOne(e, c);
    assert s[..1] == [c];
    var d := if c == '\r' then '\n' else c;
    assert CrToLf(s) == [d] + CrToLf(s[1..]) && CrToLf(s)[1..] == CrToLf(s[1..]);
    CurrentLineAbove(e.pipe, l);
    NoLfIsCurrent(l);
    assert Singles(s)[0] == [c] && Singles(s)[1..] == Singles(s[1..]);
    hide Read, Balanced, CrToLf, Singles, CurrentLine;
    if !(d == BS && l == "") {
      StepUnbalanced(e, d, CrToLf(s));
      SinglesFail(Read(e, [c]).value, s[1..]);
    }
  }

  lemma UnbalancedTail(t: string, d: char, typed: string)
    requires typed != "" && typed[0] == d && !Balanced(t, typed) && (d == BS ==> CurrentLine(t) != "")
    ensures if d == BS then t != "" && !Balanced(t[..|t| - 1], typed[1..]) else !Balanced(t + [d], typed[1..])
  {}

  lemma TypedTail(e: Editor, d: char)
    requires (d == BS ==> e.lastline != "") && All(e.lastline, NotBs) && All(e.lastline, NotLf) && Finished(e.pipe)
    ensures var r := Typed(e, d).value;
      var t := e.pipe + e.lastline;
      r.pipe + r.lastline == (if d == BS then t[..|t| - 1] else t + [d]) &&
      All(r.lastline, NotBs) && All(r.lastline, NotLf) && Finished(r.pipe)
  {
    var l := e.lastline;
    if d == BS {
      var k := l[..|l| - 1];
      assert forall i | 0 <= i < |k| :: NotBs(l[i]) && NotLf(l[i]) && k[i] == l[i];
    } else if d == '\n' {
      Assoc(e.pipe, l, "\n");
    } else {
      Assoc(e.pipe, l, [d]);
    }
  }

  lemma StepUnbalanced(e: Editor, d: char, typed: string)
    requires typed != "" && typed[0] == d && !Balanced(e.pipe + e.lastline, typed)
    requires CurrentLine(e.pipe + e.lastline) == e.lastline && (d == BS ==> e.lastline != "")
    requires All(e.lastline, NotBs) && All(e.lastline, NotLf) && Finished(e.pipe)
    ensures var r := Typed(e, d).value;
      !Balanced(r.pipe + r.lastline, typed[1..]) && All(r.lastline, NotBs) && All(r.lastline, NotLf) && Finished(r.pipe)
  {
    hide CurrentLine, Balanced, Finished, All;
    UnbalancedTail(e.pipe + e.lastline, d, typed);
    TypedTail(e, d);
  }

  /** The condition is exact: the editor never pops from nothing under any cutting of the input into reads if
      and only if backspaces never outnumber the characters of their line. */
  lemma SafeExactlyWhenBalanced(s: string)
    ensures (forall batches | Concat(batches) == s :: ReadAll(START, batches).Some?) <==> Balanced("", CrToLf(s))
  {
    assert "" + "" == "";
    if Balanced("", CrToLf(s)) {
      forall batches | Concat(batches) == s ensures ReadAll(START, batches).Some? { PipeAndLineAreTyped(batches); }
    } else {
      SinglesFail(START, s);
      SinglesConcat(s);
    }
  }

  // ----- The echo

  /** The CR/LF expansion shared by both handlers: a line feed gets a carriage return in front, and whatever
      follows a carriage return is passed over. */
  function Expand(s: string): string
    decreases |s|
  {
    if s == "" then ""
    else if s[0] == '\n' then "\r\n" + Expand(s[1..])
    else if s[0] == '\r' then s[..if |s| == 1 then 1 else 2] + Expand(s[if |s| == 1 then 1 else 2..])
    else [s[0]] + Expand(s[1..])
  }

  /** The echo when the first `n` characters are done. */
  function Finish(s: string, n: nat): string { if n <= |s| then s[..n] + Expand(s[n..]) else s }

  lemma FinishEnds(s: string, n: nat)
    ensures n >= |s| ==> Finish(s, n) == s
    ensures Finish(s, 0) == Expand(s)
  {
    assert s[0..] == s && s[|s|..] == "" && s[..|s|] == s;
  }

  /** The loop that inserts into the string it indexes. */
  method ExpandLines(input: string) returns (s: string)
    ensures s == Expand(input)
  {
    hide Expand, Finish;
    s := input;
    var n := 0;
    FinishEnds(s, 0);
    while n < |s|
      invariant Finish(s, n) == Expand(input)
      decreases |s| - n
    {
      ghost var a, b, c := s[..n], s[n + 1..], s[n];
      CutAt(s, n);
      ExpandStep(a, c, b);
      if s[n] == '\n' {
        s := s[..n] + "\r" + s[n..];
        n := n + 1;
        InsertCr(a, b);
        assert s == a + ("\r\n" + b);
      }
      if s[n] == '\r' {
        n := n + 1;
      }
      n := n + 1;
    }
    FinishEnds(s, n);
  }

  lemma CutAt(s: string, n: nat)
    requires n < |s|
    ensures s == s[..n] + ([s[n]] + s[n + 1..]) && s[n..] == [s[n]] + s[n + 1..]
  {}

  lemma InsertCr(a: string, b: string)
    ensures a + "\r" + ("\n" + b) == a + ("\r\n" + b) && (a + ("\r\n" + b))[|a| + 1] == '\n'
  {
    assert "\r" + ("\n" + b) == "\r\n" + b;
    Assoc(a, "\r", "\n" + b);
  }

  /** One turn of the loop, with `a` done, `c` looked at and `b` ahead. */
  lemma ExpandStep(a: string, c: char, b: string)
    ensures var s := a + ([c] + b);
      if c == '\n' then Finish(a + ("\r\n" + b), |a| + 2) == Finish(s, |a|)
      else Finish(s, if c == '\r' then |a| + 2 else |a| + 1) == Finish(s, |a|)
  {
    var s := a + ([c] + b);
    assert ([c] + b)[1..] == b && s[..|a|] == a && s[|a|..] == [c] + b;
    if c == '\n' {
      var s' := a + ("\r\n" + b);
      assert s'[..|a| + 2] == a + "\r\n" && s'[|a| + 2..] == b;
      Assoc(a, "\r\n", Expand(b));
    } else if c == '\r' {
      SkipPair(a, b);
      assert "\r" + b == [c] + b;
    } else {
      assert s[..|a| + 1] == a + [c] && s[|a| + 1..] == b;
      Assoc(a, [c], Expand(b));
    }
  }

  lemma SkipPair(a: string, b: string)
    ensures var s := a + ("\r" + b); var n := |a| + 2;
      if b == "" then a + Expand("\r" + b) == s
      else n <= |s| && s[..n] + Expand(s[n..]) == a + Expand("\r" + b)
  {
    var t := "\r" + b;
    if b == "" {
      assert t == "\r" && t[..1] == t && t[1..] == "" && t + "" == t;
    } else {
      var s := a + t;
      assert t[2..] == b[1..] && s[|a| + 2..] == t[2..] && s[..|a| + 2] == a + t[..2];
      Assoc(a, t[..2], Expand(t[2..]));
    }
  }

  /** The first piece of the echo, what is left of the text after it, and the echo put together of both. */
  lemma {:induction false} EchoCut(s: string) returns (head: string, rest: string)
    requires s != ""
    ensures |rest| < |s| && Expand(s) == head + Expand(rest)
    ensures head == "\r\n" || (|head| == 2 && head[0] == '\r') ||
            (|head| == 1 && head[0] != '\n' && (head[0] == '\r' ==> rest == ""))
  {
    var k := if s[0] == '\r' && |s| > 1 then 2 else 1;
    head, rest := if s[0] == '\n' then "\r\n" else s[..k], s[k..];
  }

  /** Expanding a text that starts with such a piece leaves the piece alone. */
  lemma {:induction false} ExpandPiece(head: string, t: string)
    requires (|head| == 2 && head[0] == '\r') || (|head| == 1 && head[0] != '\n' && (head[0] == '\r' ==> t == ""))
    ensures Expand(head + t) == head + Expand(t)
  {
    var e := head + t;
    assert e[..|head|] == head && e[|head|..] == t;
  }

  /** Every line feed of the echoed text has a carriage return in front of it. */
  lemma {:induction false} EchoHasCr(s: string, i: nat)
    requires i < |Expand(s)| && Expand(s)[i] == '\n'
    ensures i > 0 && Expand(s)[i - 1] == '\r'
    decreases |s|
  {
    var head, rest := EchoCut(s);
    hide Expand;
    if i >= |head| { EchoHasCr(rest, i - |head|); }
  }

  /** Expanding again changes nothing. */
  lemma {:induction false} EchoIsExpanded(s: string)
    ensures Expand(Expand(s)) == Expand(s)
    decreases |s|
  {
    if s != "" {
      var head, rest := EchoCut(s);
      EchoIsExpanded(rest);
      assert Expand("") == "";
      hide Expand;
      ExpandPiece(head, Expand(rest));
    }
  }

  /** Whether a position is passed over: the one behind a carriage return that is not passed over itself. */
  predicate Passed(s: string, i: nat)
    requires i <= |s|
  {
    i > 0 && s[i - 1] == '\r' && !Passed(s, i - 1)
  }

  /** The echo from its positions: a line feed that is not passed over becomes both characters, every other character
      stays. */
  function EchoOf(s: string, n: nat): string
    requires n <= |s|
  {
    if n == 0 then ""
    else EchoOf(s, n - 1) + (if s[n - 1] == '\n' && !Passed(s, n - 1) then "\r\n" else [s[n - 1]])
  }

  /** A finished front does not depend on what follows. */
  lemma {:induction false} EchoFront(s: string, t: string, n: nat)
    requires n <= |s|
    ensures EchoOf(s + t, n) == EchoOf(s, n) && (Passed(s + t, n) <==> Passed(s, n))
  {
    if n > 0 {
      EchoFront(s, t, n - 1);
      assert (s + t)[n - 1] == s[n - 1];
    }
  }

  /** Where nothing is passed over the echo starts afresh. */
  lemma {:induction false} EchoAfresh(s: string, t: string, n: nat)
    requires !Passed(s, |s|) && n <= |t|
    ensures EchoOf(s + t, |s| + n) == EchoOf(s, |s|) + EchoOf(t, n)
    ensures Passed(s + t, |s| + n) <==> Passed(t, n)
  {
    EchoFront(s, t, |s|);
    if n == 0 {
      assert EchoOf(s, |s|) + "" == EchoOf(s, |s|);
    } else {
      EchoAfresh(s, t, n - 1);
      assert (s + t)[|s| + n - 1] == t[n - 1];
      var last := if t[n - 1] == '\n' && !Passed(t, n - 1) then "\r\n" else [t[n - 1]];
      Assoc(EchoOf(s, |s|), EchoOf(t, n - 1), last);
    }
  }

  /** The expansion is that echo: exactly the line feeds that are not passed over get a carriage return, and nothing
      else is added, dropped or moved. */
  lemma {:induction false} ExpandIs(s: string)
    ensures Expand(s) == EchoOf(s, |s|)
    decreases |s|
  {
    if s != "" {
      var k := if s[0] == '\r' && |s| > 1 then 2 else 1;
      var head, rest := s[..k], s[k..];
      assert s == head + rest;
      assert s[0] == '\n' ==> head == "\n";
      assert Expand(s) == (if head == "\n" then "\r\n" else head) + Expand(rest);
      assert head == "\r" ==> rest == "";
      ExpandIs(rest);
      hide Expand, EchoOf, Passed;
      HeadEcho(head);
      if head == "\r" {
        NoEcho();
        assert s == head && head + "" == head;
      } else {
        EchoAfresh(head, rest, |rest|);
      }
    }
  }

  lemma NoEcho()
    ensures EchoOf("", 0) == ""
  {}

  lemma HeadEcho(head: string)
    requires |head| == 1 || (|head| == 2 && head[0] == '\r')
    ensures EchoOf(head, |head|) == if head == "\n" then "\r\n" else head
    ensures Passed(head, |head|) <==> head == "\r"
  {
    assert EchoOf(head, 0) == "" && !Passed(head, 0);
    assert EchoOf(head, 1) == if head[0] == '\n' then "\r\n" else [head[0]];
    if |head| == 2 { assert Passed(head, 1) && head == [head[0], head[1]]; } else { assert head == [head[0]]; }
  }

  // ----- The object

  class LineEditor {
    var lastline: string
    ghost var pipe: string

    ghost function View(): Editor
      reads this
    {
      Editor(pipe, lastline)
    }

    constructor ()
      ensures View() == START
    {
      lastline, pipe := "", "";
    }

    /** One read. The source's demand that a backspace finds a character is the precondition. Returns what is
        sent to the pipe, if anything. */
    method InHandler(bytes: string) returns (sent: string)
      requires Read(View(), bytes).Some?
      modifies this
      ensures Some(View()) == old(Read(View(), bytes))
      ensures pipe == old(pipe) + sent
    {
      lastline := lastline + CrToLf(bytes);
      ghost var line := lastline;
      var pos := Span(lastline, NotBs);
      while pos < |lastline|
        invariant pos == Span(lastline, NotBs)
        invariant pipe == old(pipe)
        invariant Edited(lastline) == Edited(line) && Edited(line).Some?
        decreases Count(lastline)
      {
        CountZero(lastline);
        assert !NotBs(lastline[pos]);
        RewriteCounts(lastline);
        lastline := lastline[..pos - 1] + lastline[pos + 1..];
        pos := Span(lastline, NotBs);
      }
      assert lastline[..pos] == lastline;
      var eol := Span(lastline, NotLf);
      sent := "";
      if eol < |lastline| {
        sent := lastline[..eol + 1];
        pipe := pipe + sent;
        lastline := lastline[eol + 1..];
      }
      assert sent == "" ==> pipe + sent == pipe;
    }
  }
}
