/**
 The receiving side of RFC 5849: parse the request, normalise the parameters, rebuild the base
 string. The request made by `token_requester` is proved to lead a server to the message that was
 signed, and that message to determine what it was made of.
 */
module OAuthServer {
  import opened Text
  import opened Encoders
  import opened Params
  import opened OAuth

  // ----- Reading a request

  predicate NotQuote(c: char) { c != '"' }

  /** `name=value` pairs joined by `&`, values still escaped; `None` for an item without `=`. */
  function SplitQuery(s: string): Option<seq<Pair>>
    decreases |s|
  {
    var n := Span(s, NotEq);
    if n == |s| then None
    else
      var a := s[n + 1..];
      var m := Span(a, NotAmp);
      if m == |a| then Some([(s[..n], a)])
      else
        var rest := SplitQuery(a[m + 1..]);
        if rest.None? then None else Some([(s[..n], a[..m])] + rest.value)
  }

  /** `name="value"` pairs joined by `, ` (section 3.5.1 of RFC 5849), values still escaped. */
  function SplitHeader(s: string): Option<seq<Pair>>
    decreases |s|
  {
    var n := Span(s, NotEq);
    var a := s[n..];
    if !("=\"" <= a) then None
    else
      var b := a[2..];
      var m := Span(b, NotQuote);
      if m == |b| then None
      else if m + 1 == |b| then Some([(s[..n], b[..m])])
      else
        var c := b[m + 1..];
        if !(", " <= c) then None
        else
          var rest := SplitHeader(c[2..]);
          if rest.None? then None else Some([(s[..n], b[..m])] + rest.value)
  }

  /** Names and values percent-decoded. */
  function DecodePairs(ps: seq<Pair>): Option<seq<Pair>> {
    if ps == [] then Some([])
    else
      var k, v, rest := Unescape(ps[0].0), Unescape(ps[0].1), DecodePairs(ps[1..]);
      if k.None? || v.None? || rest.None? then None else Some([(k.value, v.value)] + rest.value)
  }

  function ReadQuery(s: string): Option<seq<Pair>> {
    var ps := SplitQuery(s);
    if ps.None? then None else DecodePairs(ps.value)
  }

  const OAUTH: string := "OAuth "

  function ReadHeader(s: string): Option<seq<Pair>> {
    if !(OAUTH <= s) then None
    else
      var ps := SplitHeader(s[6..]);
      if ps.None? then None else DecodePairs(ps.value)
  }

  // ----- Section 3.4.1 of RFC 5849

  function EncodePairs(ps: seq<Pair>): seq<Pair> {
    if ps == [] then [] else [(Escape(ps[0].0), Escape(ps[0].1))] + EncodePairs(ps[1..])
  }

  /** Ascending by name, then by value. */
  predicate PairLess(a: Pair, b: Pair) { Before(a.0, b.0) || (a.0 == b.0 && Before(a.1, b.1)) }

  function InsertPair(p: Pair, ps: seq<Pair>): seq<Pair> {
    if ps == [] || !PairLess(ps[0], p) then [p] + ps else [ps[0]] + InsertPair(p, ps[1..])
  }

  function SortPairs(ps: seq<Pair>): seq<Pair> {
    if ps == [] then [] else InsertPair(ps[0], SortPairs(ps[1..]))
  }

  function JoinPairs(ps: seq<Pair>): string {
    if ps == [] then ""
    else ps[0].0 + "=" + ps[0].1 + (if |ps| == 1 then "" else "&" + JoinPairs(ps[1..]))
  }

  /** The parameters normalised, without the signature. */
  function Normalize(ps: seq<Pair>): string {
    JoinPairs(SortPairs(EncodePairs(Erase(ps, "oauth_signature"))))
  }

  function BaseString(verb: string, uri: string, ps: seq<Pair>): string {
    verb + "&" + Escape(uri) + "&" + Escape(Normalize(ps))
  }

  /** What a server rebuilds from the header and the form body, or from the query alone. */
  function Rebuilt(verb: string, uri: string, oauth: Option<seq<Pair>>, form: Option<seq<Pair>>): Option<string> {
    if oauth.None? || form.None? then None else Some(BaseString(verb, uri, oauth.value + form.value))
  }

  // ----- Printed lists read back

  predicate WireName(k: string) { '=' !in k && '&' !in k && IsBytes(k) }

  predicate WirePairs(ps: seq<Pair>) { forall p | p in ps :: WireName(p.0) && IsBytes(p.1) }

  /** Names of unreserved characters, any byte values. */
  predicate Plain(ps: seq<Pair>) { forall p | p in ps :: All(p.0, Unreserved) && IsBytes(p.1) }

  function Escaped(ps: seq<Pair>): (es: seq<Pair>)
    ensures |es| == |ps|
  {
    if ps == [] then [] else [(ps[0].0, Escape(ps[0].1))] + Escaped(ps[1..])
  }

  /** The request string, from its front. */
  function Joined(style: Style, ps: seq<Pair>): string {
    if ps == [] then ""
    else Combine(style, ps[0]) + (if |ps| == 1 then "" else Joiner(style) + Joined(style, ps[1..]))
  }

  lemma {:induction false} AccumulateJoins(acc: string, style: Style, ps: seq<Pair>)
    ensures Accumulate(acc, style, ps) == acc + (if ps == [] then "" else Joiner(style) + Joined(style, ps))
    decreases |ps|
  {
    hide Combine, Joiner;
    if ps == [] {
      assert acc + "" == acc;
    } else {
      var j, c := Joiner(style), Combine(style, ps[0]);
      AccumulateJoins(acc + j + c, style, ps[1..]);
      var more := if |ps| == 1 then "" else j + Joined(style, ps[1..]);
      Assoc4(acc, j, c, more);
      Assoc(j, c, more);
    }
  }

  lemma RequestIsJoined(style: Style, ps: seq<Pair>)
    requires ps != []
    ensures MakeRequest(style, ps) == Joined(style, ps)
  {
    AccumulateJoins(Combine(style, ps[0]), style, ps[1..]);
  }

  lemma EscapeAvoids(s: string)
    ensures All(Escape(s), NotAmp) && All(Escape(s), NotEq) && All(Escape(s), NotQuote) && IsBytes(Escape(s))
  {
    EscapeAlphabet(s);
    var e := Escape(s);
    hide Escape, IsEscaped;
    forall i | 0 <= i < |e| ensures e[i] != '&' && e[i] != '=' && e[i] != '"' && e[i] as int < 256 {
      assert EscapedChar(e[i]);
    }
  }

  lemma {:induction false} QuerySplits(ps: seq<Pair>)
    requires ps != [] && forall p | p in ps :: All(p.0, NotEq)
    ensures SplitQuery(Joined(Query, ps)) == Some(Escaped(ps))
  {
    var p, v := ps[0], Escape(ps[0].1);
    EscapeAvoids(p.1);
    assert p in ps;
    var more := if |ps| == 1 then "" else "&" + Joined(Query, ps[1..]);
    Assoc4(p.0, "=", v, more);
    hide Escape;
    QueryStep(p.0, v, more);
    if |ps| > 1 {
      QuerySplits(ps[1..]);
    } else {
      assert Escaped(ps) == [(p.0, v)];
    }
  }

  lemma QueryStep(k: string, v: string, more: string)
    requires All(k, NotEq) && All(v, NotAmp) && (more == "" || more[0] == '&')
    ensures var s := k + ("=" + (v + more));
      if more == "" then SplitQuery(s) == Some([(k, v)])
      else SplitQuery(more[1..]).Some? ==> SplitQuery(s) == Some([(k, v)] + SplitQuery(more[1..]).value)
  {
    SpanOf(k, "=" + (v + more), NotEq);
    SpanOf(v, more, NotAmp);
    TakeDrop("=", v + more);
    assert (k + ("=" + (v + more)))[|k| + 1..] == v + more;
    assert more != "" ==> (v + more)[|v| + 1..] == more[1..];
    assert more == "" ==> v + more == v;
  }

  lemma {:induction false} HeaderSplits(ps: seq<Pair>)
    requires ps != [] && forall p | p in ps :: All(p.0, NotEq)
    ensures SplitHeader(Joined(Header, ps)) == Some(Escaped(ps))
  {
    var p, v := ps[0], Escape(ps[0].1);
    EscapeAvoids(p.1);
    assert p in ps;
    var more := if |ps| == 1 then "" else ", " + Joined(Header, ps[1..]);
    HeaderItem(p.0, v, more);
    hide Escape;
    HeaderStep(p.0, v, more);
    if |ps| > 1 {
      HeaderSplits(ps[1..]);
      TakeDrop(", ", Joined(Header, ps[1..]));
    } else {
      assert Escaped(ps) == [(p.0, v)];
    }
  }

  lemma HeaderItem(k: string, v: string, more: string)
    ensures k + "=\"" + v + "\"" + more == k + ("=\"" + (v + ("\"" + more)))
  {
    Assoc5(k, "=\"", v, "\"", more);
    Assoc(v, "\"", more);
  }

  lemma {:induction false} HeaderStep(k: string, v: string, more: string)
    requires All(k, NotEq) && All(v, NotQuote) && (more == "" || ", " <= more)
    ensures var s := k + ("=\"" + (v + ("\"" + more)));
      if more == "" then SplitHeader(s) == Some([(k, v)])
      else SplitHeader(more[2..]).Some? ==> SplitHeader(s) == Some([(k, v)] + SplitHeader(more[2..]).value)
  {
    var c := "\"" + more;
    var b := v + c;
    var a := "=\"" + b;
    var s := k + a;
    NameCut(k, a);
    TakeDrop("=\"", b);
    ValueCut(v, more);
    hide All, Span;
    assert a[0] == '=' && a[2..] == b;
  }

  lemma NameCut(k: string, a: string)
    requires All(k, NotEq) && a != "" && a[0] == '='
    ensures Span(k + a, NotEq) == |k| && (k + a)[..|k|] == k && (k + a)[|k|..] == a
  {
    SpanOf(k, a, NotEq);
  }

  lemma ValueCut(v: string, more: string)
    requires All(v, NotQuote)
    ensures var b := v + ("\"" + more);
      Span(b, NotQuote) == |v| && b[..|v|] == v && b[|v| + 1..] == more && |b| == |v| + 1 + |more|
  {
    SpanOf(v, "\"" + more, NotQuote);
  }

  lemma {:induction false} EscapedDecode(ps: seq<Pair>)
    requires Plain(ps)
    ensures DecodePairs(Escaped(ps)) == Some(ps)
  {
    if ps != [] {
      PlainUncons(ps);
      EscapedDecode(ps[1..]);
      UnreservedEscapes(ps[0].0);
      EscapeDecodes(ps[0].1);
      hide Escape, Unescape, Unreserved, All, IsBytes, Plain;
      EscapedFront(ps);
      assert ps == [ps[0]] + ps[1..];
    }
  }

  lemma PlainUncons(ps: seq<Pair>)
    requires Plain(ps) && ps != []
    ensures All(ps[0].0, Unreserved) && IsBytes(ps[0].1) && Plain(ps[1..])
  {
    hide Unreserved, IsBytes, All;
    assert ps[0] in ps;
  }

  lemma EscapedFront(ps: seq<Pair>)
    requires ps != []
    ensures Escaped(ps)[0] == (ps[0].0, Escape(ps[0].1)) && Escaped(ps)[1..] == Escaped(ps[1..])
  {
    hide Escape;
  }

  lemma UnreservedAvoids(k: string)
    requires All(k, Unreserved)
    ensures WireName(k)
  {
    forall i | 0 <= i < |k| ensures k[i] != '=' && k[i] != '&' && k[i] as int < 256 { assert Unreserved(k[i]); }
  }

  lemma PlainIsWire(ps: seq<Pair>)
    requires Plain(ps)
    ensures WirePairs(ps)
  {
    forall p | p in ps ensures WireName(p.0) { UnreservedAvoids(p.0); }
  }

  // ----- Normalisation

  lemma {:induction false} InsertIsPut(p: Pair, ps: seq<Pair>)
    requires Sorted(ps) && Get(ps, p.0).None?
    ensures InsertPair(p, ps) == Put(ps, p.0, p.1)
  {
    if ps != [] {
      LessTotal(p.0, ps[0].0);
      LessIs(ps[0].0, p.0);
      hide Before;
      if Less(ps[0].0, p.0) {
        Uncons(ps);
        InsertIsPut(p, ps[1..]);
        if Less(p.0, ps[0].0) { LessTransitive(p.0, ps[0].0, p.0); LessIrreflexive(p.0); }
      }
    }
  }

  predicate Distinct(ps: seq<Pair>) {
    ps == [] || (Distinct(ps[1..]) && Get(ps[1..], ps[0].0).None?)
  }

  /** Sorting a list of distinct names keeps its lookups. */
  lemma {:induction false} SortKeeps(ps: seq<Pair>)
    requires Distinct(ps)
    ensures Sorted(SortPairs(ps)) && forall k :: Get(SortPairs(ps), k) == Get(ps, k)
  {
    if ps != [] {
      var t := SortPairs(ps[1..]);
      SortKeeps(ps[1..]);
      InsertIsPut(ps[0], t);
      PutSorted(t, ps[0].0, ps[0].1);
      forall k ensures Get(SortPairs(ps), k) == Get(ps, k) { GetPut(t, ps[0].0, ps[0].1, k); }
    }
  }

  lemma {:induction false} SortedIsDistinct(ps: seq<Pair>)
    requires Sorted(ps)
    ensures Distinct(ps)
  {
    if ps != [] {
      SortedIsDistinct(ps[1..]);
      LessIrreflexive(ps[0].0);
      GetIs(ps[1..], ps[0].0);
    }
  }

  lemma {:induction false} GetAppend(a: seq<Pair>, b: seq<Pair>, k: string)
    ensures Get(a + b, k) == if Get(a, k).Some? then Get(a, k) else Get(b, k)
  {
    if a == [] {
      assert a + b == b;
    } else {
      GetAppend(a[1..], b, k);
      assert (a + b)[1..] == a[1..] + b;
    }
  }

  lemma {:induction false} DistinctAppend(a: seq<Pair>, p: Pair)
    requires Distinct(a) && Get(a, p.0).None?
    ensures Distinct(a + [p])
  {
    if a == [] {
      assert a + [p] == [p];
    } else {
      DistinctAppend(a[1..], p);
      assert (a + [p])[1..] == a[1..] + [p];
      GetAppend(a[1..], [p], a[0].0);
    }
  }

  function EscapeOption(v: Option<string>): Option<string> {
    if v.None? then None else Some(Escape(v.value))
  }

  lemma {:induction false} EncodeIs(ps: seq<Pair>)
    requires Plain(ps)
    ensures EncodePairs(ps) == Escaped(ps)
    ensures forall k :: Get(EncodePairs(ps), k) == EscapeOption(Get(ps, k))
    ensures Distinct(ps) ==> Distinct(EncodePairs(ps))
    ensures Sorted(ps) ==> Sorted(EncodePairs(ps))
  {
    if ps != [] {
      assert ps[0] in ps;
      UnreservedEscapes(ps[0].0);
      EncodeIs(ps[1..]);
      assert EncodePairs(ps)[1..] == EncodePairs(ps[1..]);
      if Sorted(ps) { EncodedNames(ps[1..]); }
    }
  }

  lemma {:induction false} EncodedNames(ps: seq<Pair>)
    requires Plain(ps)
    ensures forall q | q in EncodePairs(ps) :: exists p | p in ps :: p.0 == q.0
  {
    if ps != [] {
      EncodedNames(ps[1..]);
      assert ps[0] in ps;
      UnreservedEscapes(ps[0].0);
      forall q | q in EncodePairs(ps) ensures exists p | p in ps :: p.0 == q.0 {
        if q != EncodePairs(ps)[0] {
          assert q in EncodePairs(ps[1..]);
          var p :| p in ps[1..] && p.0 == q.0;
          assert p in ps;
        }
      }
    }
  }

  lemma {:induction false} JoinEscaped(ps: seq<Pair>)
    ensures JoinPairs(Escaped(ps)) == Joined(Query, ps)
  {
    if ps != [] {
      JoinEscaped(ps[1..]);
      assert Escaped(ps)[1..] == Escaped(ps[1..]);
    }
  }

  /** Any list with the lookups of the signed parameters normalises to the signed request string. */
  lemma NormalizesTo(received: seq<Pair>, signed: seq<Pair>)
    requires Sorted(signed) && Plain(signed) && signed != []
    requires var e := Erase(received, "oauth_signature");
      Plain(e) && Distinct(e) && forall k :: Get(e, k) == Get(signed, k)
    ensures Normalize(received) == MakeRequest(Query, signed)
  {
    var e := Erase(received, "oauth_signature");
    hide Sorted, Distinct, Get, Plain, Escape, Erase;
    EncodeIs(e);
    EncodeIs(signed);
    SortKeeps(EncodePairs(e));
    SameLookups(SortPairs(EncodePairs(e)), EncodePairs(signed));
    JoinEscaped(signed);
    RequestIsJoined(Query, signed);
  }
}
