/**
 The converse of printing: everything the grammar accepts is a printed tree, so that `parse_json` is known on
 every text.
 */
module JsonReads {
  import opened Text
  import opened Json
  import opened JsonStrings
  import opened JsonNumbers
  import opened JsonPrint

  // ----- Words and the choice among the alternatives

  lemma {:induction false} WordRead(s: string, word: string, v: Json) returns (ws: string)
    requires word != "" && ParseWord(s, word, v).Match?
    ensures Ws(ws) && s == ws + (word + ParseWord(s, word, v).rest) && ParseWord(s, word, v).value == v
  {
    ws := SkipCut(s);
    var t := Skip(s);
    hide Skip;
    assert t == word + t[|word|..];
  }

  datatype Alternative = AnArray | AString | AnInteger | AReal | AnObject | AWord(word: string, v: Json)

  predicate Words(word: string, v: Json) {
    (word == "true" && v == JBool(true)) || (word == "false" && v == JBool(false)) || (word == "null" && v == JNull)
  }

  /** Which alternative a value came from. */
  lemma {:induction false} Chosen(s: string) returns (a: Alternative)
    requires ParseValue(s).Match?
    ensures match a
      case AnArray => ParseValue(s) == ParseArray(s)
      case AString => ParseString(s).Match? &&
                      ParseValue(s) == Match(JString(ParseString(s).value), ParseString(s).rest)
      case AnInteger => ParseValue(s) == ParseInt64(s)
      case AReal => ParseInt64(s) == NoMatch && ParseValue(s) == ParseDouble(s)
      case AnObject => ParseValue(s) == ParseObject(s)
      case AWord(word, v) => Words(word, v) && ParseValue(s) == ParseWord(s, word, v)
  {
    IntegerNeverThrows(s);
    hide ParseArray, ParseString, ParseInt64, ParseDouble, ParseObject, ParseWord;
    a := if !ParseArray(s).NoMatch? then AnArray
         else if ParseString(s).Match? then AString
         else if !ParseInt64(s).NoMatch? then AnInteger
         else if !ParseDouble(s).NoMatch? then AReal
         else if !ParseObject(s).NoMatch? then AnObject
         else if !ParseWord(s, "true", JBool(true)).NoMatch? then AWord("true", JBool(true))
         else if !ParseWord(s, "false", JBool(false)).NoMatch? then AWord("false", JBool(false))
         else AWord("null", JNull);
  }

  lemma IntegerNeverThrows(s: string)
    ensures !ParseInt64(s).Threw?
  {}

  // ----- Trees

  /** A text made of whitespace, a printed tree and a rest. */
  predicate Reads(s: string, ws: string, d: Doc, rest: string) {
    Ws(ws) && Wf(d) && s == ws + (Print(d) + rest)
  }

  /** A value in front of the end of a list. */
  lemma {:induction false} ValueRead(s: string) returns (ws: string, d: Doc)
    requires ParseValue(s).Match? && Ends(ParseValue(s).rest)
    ensures Reads(s, ws, d, ParseValue(s).rest) && ParseValue(s).value == Value(d)
    decreases |s|, 1
  {
    var a := Chosen(s);
    hide ParseValue, ParseArray, ParseObject, ParseString, ParseInt64, ParseDouble, ParseWord, Ends, Reads, Value,
      Words;
    match a
    case AnArray => ws, d := ArrayRead(s);
    case AnObject => ws, d := ObjectRead(s);
    case AString => ws, d := TextRead(s);
    case AnInteger => ws, d := WholeRead(s);
    case AReal => ws, d := DoubleRead(s);
    case AWord(word, v) => ws, d := LiteralRead(s, word, v);
  }

  lemma TextRead(s: string) returns (ws: string, d: Doc)
    requires ParseString(s).Match?
    ensures Reads(s, ws, d, ParseString(s).rest) && Value(d) == JString(ParseString(s).value)
  {
    var ps;
    ws, ps := StringRead(s);
    d := DString(ps);
  }

  lemma WholeRead(s: string) returns (ws: string, d: Doc)
    requires ParseInt64(s).Match?
    ensures Reads(s, ws, d, ParseInt64(s).rest) && Value(d) == ParseInt64(s).value
  {
    hide ParseInt64;
    var n;
    ws, n := IntegerRead(s);
    d := DNumber(n);
  }

  lemma DoubleRead(s: string) returns (ws: string, d: Doc)
    requires ParseInt64(s) == NoMatch && ParseDouble(s).Match? && Ends(ParseDouble(s).rest)
    ensures Reads(s, ws, d, ParseDouble(s).rest) && Value(d) == ParseDouble(s).value
  {
    hide ParseInt64, ParseDouble, Ends;
    var n;
    ws, n := RealRead(s);
    d := DNumber(n);
  }

  lemma LiteralRead(s: string, word: string, v: Json) returns (ws: string, d: Doc)
    requires Words(word, v) && ParseWord(s, word, v).Match?
    ensures Reads(s, ws, d, ParseWord(s, word, v).rest) && Value(d) == ParseWord(s, word, v).value
  {
    hide ParseWord;
    ws := WordRead(s, word, v);
    d := if v == JNull then DNull else DBool(v.b);
  }

  lemma {:induction false} ArrayRead(s: string) returns (ws: string, d: Doc)
    requires ParseArray(s).Match?
    ensures Reads(s, ws, d, ParseArray(s).rest) && d.DArray? && ParseArray(s).value == Value(d)
    decreases |s|, 0
  {
    ArrayUnfold(s);
    hide ParseArray, ParseItems, Skip, Ws, WfItems, PrintItems, JsonPrint.Values, Reads, Value;
    ws := NextCut(s, '[');
    var t := Skip(s)[1..];
    var p := ParseItems(t);
    var end := if p.Match? then p.rest else t;
    var close := NextCut(end, ']');
    EmptyItems(end);
    var items := NoItems;
    if p.Match? { items := ItemsRead(t); }
    assert t == PrintItems(items) + end;
    d := DArray(items, close);
    ArrayAssembled(s, ws, d, ParseArray(s).rest);
  }

  lemma ArrayAssembled(s: string, ws: string, d: Doc, rest: string)
    requires Ws(ws) && d.DArray? && WfItems(d.items) && Ws(d.ws)
    requires s == ws + (['['] + (PrintItems(d.items) + (d.ws + ([']'] + rest))))
    ensures Reads(s, ws, d, rest) && Value(d) == JArray(JsonPrint.Values(d.items))
  {
    hide PrintItems, WfItems, Ws, JsonPrint.Values;
    Enclosed("[", PrintItems(d.items), d.ws, "]", rest);
  }

  lemma EmptyItems(end: string)
    ensures WfItems(NoItems) && PrintItems(NoItems) == "" && JsonPrint.Values(NoItems) == []
    ensures WfMembers(NoMembers) && PrintMembers(NoMembers) == "" && Pairs(NoMembers) == []
    ensures "" + end == end
  {}

  lemma {:induction false} ArrayUnfold(s: string)
    requires ParseArray(s).Match?
    ensures Next(s, '[')
    ensures var p := ParseItems(Skip(s)[1..]);
      var end := if p.Match? then p.rest else Skip(s)[1..];
      !p.Threw? && Next(end, ']') &&
      ParseArray(s) == Match(JArray(if p.Match? then p.value else []), Skip(end)[1..])
  {
    hide ParseItems, Skip;
  }

  lemma {:induction false} ItemsUnread(s: string)
    requires ParseItems(s).Match? && Next(ParseItems(s).rest, ']')
    ensures ParseValue(s).Match?
    ensures var v := ParseValue(s);
      if Next(v.rest, ',') then
        var p := ParseItems(Skip(v.rest)[1..]); p.Match? && ParseItems(s) == Match([v.value] + p.value, p.rest)
      else
        ParseItems(s) == Match([v.value], v.rest)
  {
    hide ParseValue, Skip;
  }

  /** The elements in front of a closing bracket. */
  lemma {:induction false} ItemsRead(s: string) returns (items: Items)
    requires ParseItems(s).Match? && Next(ParseItems(s).rest, ']')
    ensures items.Item? && WfItems(items) && s == PrintItems(items) + ParseItems(s).rest
    ensures ParseItems(s).value == JsonPrint.Values(items)
    decreases |s|, 2
  {
    ItemsUnread(s);
    var v := ParseValue(s);
    hide ParseValue, ParseItems, Skip, Ws, Wf, Print, PrintItems, Value;
    var before, doc := ValueRead(s);
    if Next(v.rest, ',') {
      var after := NextCut(v.rest, ',');
      var more := ItemsRead(Skip(v.rest)[1..]);
      items := Item(before, doc, after, more);
    } else {
      EmptyItems("");
      items := Item(before, doc, "", NoItems);
      assert Ws("") by { NoWs(); }
      assert [v.value] + [] == [v.value];
    }
    var r := ItemsUnfold(items, ParseItems(s).rest);
  }

  lemma {:induction false} ObjectRead(s: string) returns (ws: string, d: Doc)
    requires ParseObject(s).Match?
    ensures Reads(s, ws, d, ParseObject(s).rest) && d.DObject? && ParseObject(s).value == Value(d)
    decreases |s|, 0
  {
    ObjectUnfold(s);
    hide ParseObject, ParsePairs, Skip, Ws, WfMembers, PrintMembers, Pairs, FirstWins, Reads, Value;
    ws := NextCut(s, '{');
    var t := Skip(s)[1..];
    var p := ParsePairs(t);
    var end := if p.Match? then p.rest else t;
    var close := NextCut(end, '}');
    EmptyItems(end);
    var members := NoMembers;
    if p.Match? { members := MembersRead(t); }
    assert t == PrintMembers(members) + end;
    d := DObject(members, close);
    ObjectAssembled(s, ws, d, ParseObject(s).rest);
  }

  lemma ObjectAssembled(s: string, ws: string, d: Doc, rest: string)
    requires Ws(ws) && d.DObject? && WfMembers(d.members) && Ws(d.ws)
    requires s == ws + (['{'] + (PrintMembers(d.members) + (d.ws + (['}'] + rest))))
    ensures Reads(s, ws, d, rest) && Value(d) == JObject(FirstWins(map[], Pairs(d.members)))
  {
    hide PrintMembers, WfMembers, Ws, Pairs, FirstWins;
    Enclosed("{", PrintMembers(d.members), d.ws, "}", rest);
  }

  lemma {:induction false} ObjectUnfold(s: string)
    requires ParseObject(s).Match?
    ensures Next(s, '{')
    ensures var p := ParsePairs(Skip(s)[1..]);
      var end := if p.Match? then p.rest else Skip(s)[1..];
      !p.Threw? && Next(end, '}') &&
      ParseObject(s) == Match(JObject(FirstWins(map[], if p.Match? then p.value else [])), Skip(end)[1..])
  {
    hide ParsePairs, Skip;
  }

  lemma {:induction false} PairsUnread(s: string)
    requires ParsePairs(s).Match? && Next(ParsePairs(s).rest, '}')
    ensures ParsePair(s).Match?
    ensures var v := ParsePair(s);
      if Next(v.rest, ',') then
        var p := ParsePairs(Skip(v.rest)[1..]); p.Match? && ParsePairs(s) == Match([v.value] + p.value, p.rest)
      else
        ParsePairs(s) == Match([v.value], v.rest)
  {
    hide ParsePair, Skip;
  }

  lemma {:induction false} PairUnread(s: string)
    requires ParsePair(s).Match?
    ensures ParseString(s).Match? && Next(ParseString(s).rest, ':')
    ensures var v := ParseValue(Skip(ParseString(s).rest)[1..]);
      v.Match? && ParsePair(s) == Match((ParseString(s).value, v.value), v.rest)
  {
    hide ParseString, ParseValue, Skip;
  }

  /** One member: its name, the colon and its value; what comes behind is still open. */
  lemma {:induction false} MemberRead(s: string) returns (m: Members)
    requires ParsePair(s).Match? && Ends(ParsePair(s).rest)
    ensures m.Member? && m.more == NoMembers && WfMembers(m) && s == MemberText(m, ParsePair(s).rest)
    ensures ParsePair(s).value == (TextOf(m.name), Value(m.doc))
    decreases |s|, 2
  {
    PairUnread(s);
    var r := ParseString(s).rest;
    hide ParseValue, ParsePair, ParseString, Skip, Ws, Wf, Print, Value, WfPieces, TextOf, Quoted, Ends;
    var before, name := StringRead(s);
    var colon := NextCut(r, ':');
    var gap, doc := ValueRead(Skip(r)[1..]);
    NoWs();
    EmptyItems("");
    m := Member(before, name, colon, gap, doc, "", NoMembers);
  }

  lemma {:induction false} MembersRead(s: string) returns (ms: Members)
    requires ParsePairs(s).Match? && Next(ParsePairs(s).rest, '}')
    ensures ms.Member? && WfMembers(ms) && s == PrintMembers(ms) + ParsePairs(s).rest
    ensures ParsePairs(s).value == Pairs(ms)
    decreases |s|, 3
  {
    PairsUnread(s);
    var v := ParsePair(s);
    hide ParsePair, ParsePairs, Skip, Ws, Wf, WfPieces, PrintMembers, Value, TextOf, MemberText;
    var m := MemberRead(s);
    if Next(v.rest, ',') {
      var after := NextCut(v.rest, ',');
      var more := MembersRead(Skip(v.rest)[1..]);
      ms := m.(after := after, more := more);
    } else {
      EmptyItems("");
      ms := m;
      assert [v.value] + [] == [v.value];
    }
    SameMember(m, ms, v.rest);
    var r := MemberUnfold(ms, ParsePairs(s).rest);
  }

  lemma SameMember(m: Members, ms: Members, r: string)
    requires m.Member? && ms.Member? && ms == m.(after := ms.after, more := ms.more)
    ensures MemberText(ms, r) == MemberText(m, r)
  {}

  // ----- `parse_json` on every text

  /** The text is a printed tree with an object or an array for its root, between whitespace and anything. */
  predicate IsPrinted(s: string, ws: string, d: Doc, trailing: string) {
    Reads(s, ws, d, trailing) && (d.DObject? || d.DArray?)
  }

  ghost predicate Printed(s: string) { exists ws, d, trailing :: IsPrinted(s, ws, d, trailing) }

  /** A text whose first character is no opening bracket is never looked at and gives the empty array. Any other
      one is read if and only if it is a printed tree with something behind it, and then as that tree's value;
      the rest throw. */
  lemma {:induction false} ReadExactly(s: string)
    ensures !Next(s, '{') && !Next(s, '[') ==> ParseJson(s) == Some(JArray([])) && !Printed(s)
    ensures Next(s, '{') || Next(s, '[') ==> (ParseJson(s).Some? <==> Printed(s))
    ensures forall ws, d, trailing | IsPrinted(s, ws, d, trailing) :: ParseJson(s) == Some(Value(d))
  {
    forall ws, d, trailing | IsPrinted(s, ws, d, trailing)
      ensures ParseJson(s) == Some(Value(d)) && (Next(s, '{') || Next(s, '['))
    {
      ParseUndoesPrint(d, ws, trailing);
      PrintedStarts(ws, d, trailing);
    }
    hide IsPrinted;
    if (Next(s, '{') || Next(s, '[')) && ParseJson(s).Some? {
      var ws, d, trailing := RootRead(s);
      assert IsPrinted(s, ws, d, trailing);
    }
    NoRoot(s);
  }

  lemma NoRoot(s: string)
    ensures !Next(s, '{') && !Next(s, '[') ==> ParseJson(s) == Some(JArray([]))
  {}

  lemma {:induction false} PrintedStarts(ws: string, d: Doc, trailing: string)
    requires Ws(ws) && (d.DObject? || d.DArray?)
    ensures var s := ws + (Print(d) + trailing); Next(s, '{') || Next(s, '[')
  {
    assert Print(d) != "" && Print(d)[0] == (if d.DObject? then '{' else '[');
    hide Print;
    assert (Print(d) + trailing)[0] == Print(d)[0];
    SkipsWs(ws, Print(d) + trailing);
  }

  lemma {:induction false} RootRead(s: string) returns (ws: string, d: Doc, trailing: string)
    requires (Next(s, '{') || Next(s, '[')) && ParseJson(s).Some?
    ensures IsPrinted(s, ws, d, trailing)
  {
    RootUnfold(s);
    hide ParseObject, ParseArray, ParseJson, Reads, Skip;
    if ParseObject(s).Match? {
      trailing := ParseObject(s).rest;
      ws, d := ObjectRead(s);
    } else {
      trailing := ParseArray(s).rest;
      ws, d := ArrayRead(s);
    }
  }

  lemma RootUnfold(s: string)
    requires (Next(s, '{') || Next(s, '[')) && ParseJson(s).Some?
    ensures ParseObject(s).Match? || ParseArray(s).Match?
  {
    if Next(s, '[') {
      assert ParseObject(s) == NoMatch;
      assert !ParseArray(s).NoMatch?;
    } else {
      assert !ParseObject(s).NoMatch?;
    }
  }

  /** One thing that is refused: an exponent without a point, behind an integer that fits. The integer is read, and
      the text behind it neither continues nor closes the array. */
  lemma {:induction false} ExponentThrows(n: Number, rest: string)
    requires IsInteger(n) && IsSign(n.sign) && All(n.whole, IsDigit)
    requires n.exponent.Some? && WfExponent(n.exponent.value)
    ensures ParseJson("[" + (NumberText(n) + ("]" + rest))) == None
  {
    var t := NumberText(n) + ("]" + rest);
    var s := "[" + t;
    var v, u := IntegerTaken(n, "]" + rest);
    EndsOf("", '[', t);
    assert "" + s == s && ['['] + t == s;
    hide NumberText, ParseValue, Skip, Next;
    ArrayThrows(s, t, v, u);
  }

  lemma {:induction false} IntegerTaken(n: Number, rest: string) returns (v: Json, u: string)
    requires IsInteger(n) && IsSign(n.sign) && All(n.whole, IsDigit)
    requires n.exponent.Some? && WfExponent(n.exponent.value)
    ensures ParseValue(NumberText(n) + rest) == Match(v, u) && !Next(u, ',') && !Next(u, ']')
  {
    var t := NumberText(n) + rest;
    u := Behind(n) + rest;
    DecimalUnfold(n, rest);
    assert u[0] == n.exponent.value.e;
    LetterFollows(u);
    IntegerWithExponentStarts(n, rest);
    hide Behind, NumberText, ExponentText, PointText, WfExponent, ParseInt, ParseValue, ValueOf, ParseArray,
      ParseString, Next, Skip;
    DigitsRead(n.sign, n.whole, u);
    v := JInt(Signed(n.sign == "-", ValueOf(n.whole, 10)));
    StartsAtOnce(t);
    OtherAlternatives(t, t[0]);
    assert ParseInt64(t) == Match(v, u);
    hide ParseInt64;
    IntegerIsValue(t);
  }

  lemma StartsAtOnce(t: string)
    requires t != "" && !IsSpace(t[0])
    ensures Skip(t) == t && Next(t, t[0])
  {
    SkipsWs("", t);
    assert "" + t == t;
  }

  lemma {:induction false} ArrayThrows(s: string, t: string, v: Json, u: string)
    requires Next(s, '[') && Skip(s)[1..] == t && ParseValue(t) == Match(v, u) && !Next(u, ',') && !Next(u, ']')
    ensures ParseJson(s) == None
  {
    OtherAlternatives(s, '[');
    hide ParseValue, Skip, ParseObject, ParsePairs;
    ItemsStep(t, v, u);
    hide ParseItems;
  }

  lemma LetterFollows(u: string)
    requires u != "" && Lower(u[0]) == 'e'
    ensures !Next(u, ',') && !Next(u, ']') && !Next(u, '.') && !IsDigit(u[0])
  {}

  lemma IntegerWithExponentStarts(n: Number, rest: string)
    requires IsInteger(n) && IsSign(n.sign) && All(n.whole, IsDigit)
    ensures var t := NumberText(n) + rest;
      t != "" && !IsSpace(t[0]) && t[0] != '[' && t[0] != '"' && t[0] != '{'
  {
    DecimalUnfold(n, rest);
    hide NumberText, Behind;
    var t := n.whole + (Behind(n) + rest);
    assert IsDigit(n.whole[0]) && t[0] == n.whole[0];
    assert n.sign == "" ==> n.sign + t == t;
    assert n.sign != "" ==> (n.sign + t)[0] == n.sign[0];
  }
}
