/**
 Objects printed without whitespace and with plain names, so that particular texts can be named.
 */
module JsonCompact {
  import opened Text
  import opened Json
  import opened JsonStrings
  import opened JsonNumbers
  import opened JsonPrint

  /** A name that is spelled as it is. */
  predicate PlainName(s: string) {
    forall i | 0 <= i < |s| :: s[i] as int < 128 && s[i] != '"' && s[i] != '\\' && s[i] != '&'
  }

  predicate PlainNames(ms: seq<(string, Doc)>) { forall i | 0 <= i < |ms| :: PlainName(ms[i].0) }

  function MembersOf(ms: seq<(string, Doc)>): Members
    requires PlainNames(ms)
  {
    if ms == [] then NoMembers else Member("", Spell(ms[0].0), "", "", ms[0].1, "", MembersOf(ms[1..]))
  }

  function Object(ms: seq<(string, Doc)>): Doc
    requires PlainNames(ms)
  {
    DObject(MembersOf(ms), "")
  }

  function Integer(n: int): Doc { DNumber(Decimal(SignText(n), Digits(Magnitude(n)), None, None)) }

  predicate Ascii(s: string) { forall i | 0 <= i < |s| :: s[i] as int < 128 }

  function AsciiDoc(s: string): Doc
    requires Ascii(s)
  {
    DString(Spell(s))
  }

  lemma {:induction false} IntegerIs(n: int)
    requires INT64_MIN <= n <= INT64_MAX
    ensures Wf(Integer(n)) && Print(Integer(n)) == Show(n) && Value(Integer(n)) == JInt(n)
  {
    ShowIs(n, None);
    hide Digits, ValueOf, Show, NumberText;
    assert Show(n) + "" == Show(n);
  }

  lemma {:induction false} AsciiIs(s: string)
    requires Ascii(s)
    ensures Wf(AsciiDoc(s)) && Value(AsciiDoc(s)) == JString(s)
    ensures PlainName(s) ==> Print(AsciiDoc(s)) == "\"" + s + "\""
  {
    SpellText(s);
    if PlainName(s) { SpellPrints(s); }
    hide Spell, TextOf, WfPieces, PrintPieces;
  }

  /** What the members stand for. */
  function PairsOf(ms: seq<(string, Doc)>): seq<(string, Json)>
    requires forall i | 0 <= i < |ms| :: Wf(ms[i].1)
  {
    if ms == [] then [] else [(ms[0].0, Value(ms[0].1))] + PairsOf(ms[1..])
  }

  /** How they are printed. */
  function Compact(ms: seq<(string, Doc)>): string {
    if ms == [] then ""
    else "\"" + ms[0].0 + "\":" + Print(ms[0].1) + (if |ms| == 1 then "" else "," + Compact(ms[1..]))
  }

  lemma {:induction false} MembersAre(ms: seq<(string, Doc)>)
    requires PlainNames(ms) && forall i | 0 <= i < |ms| :: Wf(ms[i].1)
    ensures WfMembers(MembersOf(ms)) && Pairs(MembersOf(ms)) == PairsOf(ms)
    ensures PrintMembers(MembersOf(ms)) == Compact(ms)
  {
    hide Wf, Value, Print;
    if ms != [] {
      assert PlainName(ms[0].0);
      MembersAre(ms[1..]);
      SpellText(ms[0].0);
      SpellPrints(ms[0].0);
      NoWs();
      hide Spell, TextOf, WfPieces, PrintPieces, Ws;
      MemberIs(Spell(ms[0].0), ms[0].1, MembersOf(ms[1..]));
    }
  }

  lemma MemberIs(name: seq<Piece>, d: Doc, more: Members)
    ensures PrintMembers(Member("", name, "", "", d, "", more))
         == "\"" + PrintPieces(name) + "\":" + Print(d) + (if more.NoMembers? then "" else "," + PrintMembers(more))
  {
    var t := if more.NoMembers? then "" else "" + ("," + PrintMembers(more));
    var v := Print(d) + t;
    hide PrintPieces, Print;
    assert t == if more.NoMembers? then "" else "," + PrintMembers(more) by { EmptyFront("," + PrintMembers(more)); }
    EmptyFront(v);
    EmptyFront(":" + v);
    EmptyFront(Quoted(name) + (":" + v));
    assert PrintMembers(Member("", name, "", "", d, "", more))
        == "" + (Quoted(name) + ("" + (":" + ("" + v))));
    hide PrintMembers;
    var q := "\"" + PrintPieces(name);
    Assoc(q, "\"", ":" + v);
    Assoc("\"", ":", v);
    assert "\"" + ":" == "\":";
    Assoc(q, "\":", v);
    Assoc(q + "\":", Print(d), t);
  }

  lemma EmptyFront(s: string)
    ensures "" + s == s && s + "" == s
  {}

  lemma {:induction false} ObjectIs(ms: seq<(string, Doc)>)
    requires PlainNames(ms) && forall i | 0 <= i < |ms| :: Wf(ms[i].1)
    ensures var o := Object(ms);
      Wf(o) && o.DObject? && Value(o) == JObject(FirstWins(map[], PairsOf(ms))) && Print(o) == "{" + Compact(ms) + "}"
  {
    hide PrintMembers, Pairs, FirstWins, Compact;
    MembersAre(ms);
    NoWs();
    EmptyFront("}");
    Assoc("{", Compact(ms), "}");
  }

  /** One member. */
  lemma {:induction false} SingleIs(name: string, d: Doc)
    requires PlainName(name) && Wf(d)
    ensures var ms := [(name, d)];
      PlainNames(ms) && Wf(Object(ms)) && Object(ms).DObject? && Value(Object(ms)) == JObject(map[name := Value(d)]) &&
      Print(Object(ms)) == "{\"" + name + "\":" + Print(d) + "}"
  {
    var ms := [(name, d)];
    assert ms[1..] == [] && forall i | 0 <= i < |ms| :: PlainName(ms[i].0) && Wf(ms[i].1);
    ObjectIs(ms);
    hide Wf, Value, Print, Object;
    assert PairsOf(ms) == [(name, Value(d))];
    FirstOfOne(name, Value(d));
    assert Compact(ms) == "\"" + name + "\":" + Print(d) by { EmptyFront("\"" + name + "\":" + Print(d)); }
    Assoc4("{", "\"" + name, "\":", Print(d));
    Assoc("{", "\"", name);
    assert "{" + "\"" == "{\"";
    Assoc4("{\"", name, "\":", Print(d));
    Assoc("\"" + name, "\":", Print(d));
  }

  lemma FirstOfOne(name: string, v: Json)
    ensures FirstWins(map[], [(name, v)]) == map[name := v]
  {
    assert [(name, v)][1..] == [];
  }

  lemma FirstWinsStep(m: map<string, Json>, p: (string, Json), rest: seq<(string, Json)>)
    ensures FirstWins(m, [p] + rest) == FirstWins(if p.0 in m then m else m[p.0 := p.1], rest)
  {
    assert ([p] + rest)[1..] == rest;
  }

  lemma FirstWinsEnd(m: map<string, Json>)
    ensures FirstWins(m, []) == m
  {}

  lemma PairsOfCons(m: (string, Doc), rest: seq<(string, Doc)>)
    requires Wf(m.1) && forall i | 0 <= i < |rest| :: Wf(rest[i].1)
    ensures PairsOf([m] + rest) == [(m.0, Value(m.1))] + PairsOf(rest)
  {
    assert ([m] + rest)[1..] == rest;
    hide Wf, Value;
  }

  lemma PairsOfNone()
    ensures PairsOf([]) == []
  {}

  /** Two members of different names. */
  lemma {:induction false} TwoAre(a: (string, Doc), b: (string, Doc))
    requires PlainName(a.0) && PlainName(b.0) && Wf(a.1) && Wf(b.1) && a.0 != b.0
    ensures var ms := [a, b];
      PlainNames(ms) && Wf(Object(ms)) && Object(ms).DObject? &&
      Value(Object(ms)) == JObject(map[a.0 := Value(a.1), b.0 := Value(b.1)])
  {
    var ms := [a, b];
    assert forall i | 0 <= i < |ms| :: PlainName(ms[i].0) && Wf(ms[i].1);
    hide Wf, Value, Print, Object, PlainName;
    ObjectIs(ms);
    PairsOfNone();
    PairsOfCons(b, []);
    PairsOfCons(a, [b]);
    assert ms == [a] + [b] && [b] == [b] + [];
    hide PairsOf, FirstWins;
    var p, q := (a.0, Value(a.1)), (b.0, Value(b.1));
    FirstWinsStep(map[], p, [q]);
    FirstWinsStep(map[p.0 := p.1], q, []);
    FirstWinsEnd(map[p.0 := p.1, q.0 := q.1]);
    assert [q] == [q] + [];
  }

  /** Four members of different names. */
  lemma {:induction false} FourAre(a: (string, Doc), b: (string, Doc), c: (string, Doc), d: (string, Doc))
    requires PlainName(a.0) && PlainName(b.0) && PlainName(c.0) && PlainName(d.0)
    requires Wf(a.1) && Wf(b.1) && Wf(c.1) && Wf(d.1)
    requires a.0 != b.0 && a.0 != c.0 && a.0 != d.0 && b.0 != c.0 && b.0 != d.0 && c.0 != d.0
    ensures var ms := [a, b, c, d];
      PlainNames(ms) && Wf(Object(ms)) && Object(ms).DObject? &&
      Value(Object(ms)) == JObject(map[a.0 := Value(a.1), b.0 := Value(b.1), c.0 := Value(c.1), d.0 := Value(d.1)])
  {
    var ms := [a, b, c, d];
    assert forall i | 0 <= i < |ms| :: PlainName(ms[i].0) && Wf(ms[i].1);
    hide Wf, Value, Print, Object, PlainName;
    ObjectIs(ms);
    PairsOfNone();
    PairsOfCons(d, []);
    PairsOfCons(c, [d]);
    PairsOfCons(b, [c, d]);
    PairsOfCons(a, [b, c, d]);
    assert ms == [a] + [b, c, d] && [b, c, d] == [b] + [c, d] && [c, d] == [c] + [d] && [d] == [d] + [];
    hide PairsOf, FirstWins;
    FourFirst((a.0, Value(a.1)), (b.0, Value(b.1)), (c.0, Value(c.1)), (d.0, Value(d.1)));
  }

  lemma FourFirst(p: (string, Json), q: (string, Json), r: (string, Json), s: (string, Json))
    requires p.0 != q.0 && p.0 != r.0 && p.0 != s.0 && q.0 != r.0 && q.0 != s.0 && r.0 != s.0
    ensures FirstWins(map[], [p] + ([q] + ([r] + ([s] + [])))) == map[p.0 := p.1, q.0 := q.1, r.0 := r.1, s.0 := s.1]
  {
    hide FirstWins;
    FirstWinsStep(map[], p, [q] + ([r] + ([s] + [])));
    FirstWinsStep(map[p.0 := p.1], q, [r] + ([s] + []));
    FirstWinsStep(map[p.0 := p.1, q.0 := q.1], r, [s] + []);
    FirstWinsStep(map[p.0 := p.1, q.0 := q.1, r.0 := r.1], s, []);
    FirstWinsEnd(map[p.0 := p.1, q.0 := q.1, r.0 := r.1, s.0 := s.1]);
  }
}
