/**
 Printed JSON: trees with their whitespace and their spellings, the text they print to, and the proof that the
 parser undoes the printing.
 */
module JsonPrint {
  import opened Text
  import opened Json
  import opened JsonStrings
  import opened JsonNumbers

  // ----- Trees

  /** A value with the whitespace around its tokens. `ws` is the whitespace before the closing
      bracket, `after` the one before the comma of a next element. */
  datatype Doc =
    | DNull
    | DBool(b: bool)
    | DNumber(n: Number)
    | DString(text: seq<Piece>)
    | DArray(items: Items, ws: string)
    | DObject(members: Members, ws: string)

  datatype Items = NoItems | Item(before: string, doc: Doc, after: string, more: Items)

  datatype Members =
    | NoMembers
    | Member(before: string, name: seq<Piece>, colon: string, gap: string, doc: Doc, after: string, more: Members)

  predicate Wf(d: Doc) {
    match d
    case DNumber(n) => WfNumber(n)
    case DString(text) => WfPieces(text)
    case DArray(items, ws) => WfItems(items) && Ws(ws)
    case DObject(members, ws) => WfMembers(members) && Ws(ws)
    case _ => true
  }

  predicate WfItems(items: Items) {
    items.Item? ==> Ws(items.before) && Wf(items.doc) && Ws(items.after) && WfItems(items.more)
  }

  predicate WfMembers(ms: Members) {
    ms.Member? ==>
      Ws(ms.before) && WfPieces(ms.name) && Ws(ms.colon) && Ws(ms.gap) && Wf(ms.doc) && Ws(ms.after) &&
      WfMembers(ms.more)
  }

  function Print(d: Doc): string {
    match d
    case DNull => "null"
    case DBool(b) => if b then "true" else "false"
    case DNumber(n) => NumberText(n)
    case DString(text) => Quoted(text)
    case DArray(items, ws) => "[" + (PrintItems(items) + (ws + "]"))
    case DObject(members, ws) => "{" + (PrintMembers(members) + (ws + "}"))
  }

  function PrintItems(items: Items): string {
    match items
    case NoItems => ""
    case Item(before, doc, after, more) =>
      before + (Print(doc) + (if more.NoItems? then "" else after + ("," + PrintItems(more))))
  }

  function PrintMembers(ms: Members): string {
    match ms
    case NoMembers => ""
    case Member(before, name, colon, gap, doc, after, more) =>
      before + (Quoted(name) + (colon + (":" + (gap + (Print(doc) +
        (if more.NoMembers? then "" else after + ("," + PrintMembers(more))))))))
  }

  /** The value a tree stands for; of members with the same name the first one counts. */
  function Value(d: Doc): Json
    requires Wf(d)
  {
    match d
    case DNull => JNull
    case DBool(b) => JBool(b)
    case DNumber(n) => NumberValue(n)
    case DString(text) => JString(TextOf(text))
    case DArray(items, _) => JArray(Values(items))
    case DObject(members, _) => JObject(FirstWins(map[], Pairs(members)))
  }

  function Values(items: Items): seq<Json>
    requires WfItems(items)
  {
    if items.NoItems? then [] else [Value(items.doc)] + Values(items.more)
  }

  function Pairs(ms: Members): seq<(string, Json)>
    requires WfMembers(ms)
  {
    if ms.NoMembers? then [] else [(TextOf(ms.name), Value(ms.doc))] + Pairs(ms.more)
  }

  // ----- Reading tokens back

  lemma WordParses(ws: string, word: string, rest: string)
    requires Ws(ws) && word in {"true", "false", "null"}
    ensures ParseValue(ws + (word + rest))
         == Match(if word == "null" then JNull else JBool(word == "true"), rest)
  {
    var s, t := ws + (word + rest), word + rest;
    hide ParseArray, ParseString, ParseObject, ParseInt64, ParseDouble;
    assert t[0] == word[0] && t[1] == word[1];
    SkipsWs(ws, t);
    OtherAlternatives(s, word[0]);
    NoNumber(s);
    TakeDrop(word, rest);
    hide Skip;
    assert "true"[0] == 't' && "false"[0] == 'f' && "null"[0] == 'n';
    assert "true" <= t ==> t[0] == 't';
    assert "false" <= t ==> t[0] == 'f';
  }

  lemma StringParses(ws: string, ps: seq<Piece>, rest: string)
    requires Ws(ws) && WfPieces(ps)
    ensures ParseValue(ws + (Quoted(ps) + rest)) == Match(JString(TextOf(ps)), rest)
  {
    hide PrintPieces, TextOf, WfPieces, ParseString, Quoted;
    QuotedUnfold(ps, rest);
    QuotedParses(ws, ps, rest);
    var t := "\"" + (PrintPieces(ps) + ("\"" + rest));
    SkipsWs(ws, t);
    OtherAlternatives(ws + t, '"');
  }

  /** A closing bracket starts no value. */
  lemma CloserIsNoValue(s: string)
    requires Next(s, ']')
    ensures ParseValue(s) == NoMatch
  {
    OtherAlternatives(s, ']');
    NoNumber(s);
    var t := Skip(s);
    hide ParseArray, ParseString, ParseObject, ParseInt64, ParseDouble, Skip;
    assert "true"[0] == 't' && "false"[0] == 'f' && "null"[0] == 'n';
    assert !("true" <= t) && !("false" <= t) && !("null" <= t);
  }

  // ----- The whole tree

  lemma {:induction false} DocParses(d: Doc, ws: string, rest: string)
    requires Wf(d) && Ws(ws) && Ends(rest)
    ensures ParseValue(ws + (Print(d) + rest)) == Match(Value(d), rest)
    decreases d, 1
  {
    hide Ws, Ends, ParseArray, ParseObject, ParseString, ParseValue, WfPieces, TextOf;
    match d
    case DNull => WordParses(ws, "null", rest);
    case DBool(b) => WordParses(ws, if b then "true" else "false", rest);
    case DNumber(n) => NumberParses(ws, n, rest);
    case DString(text) => StringParses(ws, text, rest);
    case DArray(items, end) =>
      ArrayParses(d, ws, rest);
      ArrayIsValue(ws + (Print(d) + rest));
    case DObject(members, end) =>
      ObjectParses(d, ws, rest);
      ObjectIsValue(ws + (Print(d) + rest));
  }

  lemma ArrayIsValue(s: string)
    requires ParseArray(s).Match?
    ensures ParseValue(s) == ParseArray(s)
  {
    hide ParseArray;
  }

  lemma {:induction false} ObjectIsValue(s: string)
    requires ParseObject(s).Match?
    ensures ParseArray(s) == NoMatch && ParseValue(s) == ParseObject(s)
  {
    assert Next(s, '{');
    OtherAlternatives(s, '{');
    NoNumber(s);
    hide ParseArray, ParseObject, ParseString, ParseInt64, ParseDouble;
  }

  lemma {:induction false} ArrayParses(d: Doc, ws: string, rest: string)
    requires Wf(d) && d.DArray? && Ws(ws)
    ensures ParseArray(ws + (Print(d) + rest)) == Match(Value(d), rest)
    decreases d, 0
  {
    var end := d.ws + ("]" + rest);
    var inner := PrintItems(d.items) + end;
    assert Print(d) + rest == "[" + inner by { Enclosed("[", PrintItems(d.items), d.ws, "]", rest); }
    EndsOf(ws, '[', inner);
    EndsOf(d.ws, ']', rest);
    hide ParseValue, Print, Ws, Skip, PrintItems;
    if d.items.NoItems? {
      assert inner == end by { NothingPrinted(end); }
      CloserIsNoValue(end);
    } else {
      ItemsParse(d.items, end);
    }
  }

  lemma NothingPrinted(end: string)
    ensures PrintItems(NoItems) + end == end && PrintMembers(NoMembers) + end == end
  {}

  lemma Enclosed(open: string, inner: string, ws: string, close: string, rest: string)
    ensures open + (inner + (ws + close)) + rest == open + (inner + (ws + (close + rest)))
  {
    Assoc(open, inner + (ws + close), rest);
    Assoc(inner, ws + close, rest);
    Assoc(ws, close, rest);
  }

  lemma {:induction false} ItemsStep(s: string, v: Json, r: string)
    requires ParseValue(s) == Match(v, r)
    ensures !Next(r, ',') ==> ParseItems(s) == Match([v], r)
    ensures Next(r, ',') && ParseItems(Skip(r)[1..]).Match? ==>
              var p := ParseItems(Skip(r)[1..]); ParseItems(s) == Match([v] + p.value, p.rest)
  {
    hide ParseValue, Skip;
  }

  /** The text after a value in a list: the rest, or a comma and the further elements. */
  lemma ItemsUnfold(items: Items, rest: string) returns (r: string)
    requires items.Item?
    ensures r == if items.more.NoItems? then rest else items.after + ("," + (PrintItems(items.more) + rest))
    ensures PrintItems(items) + rest == items.before + (Print(items.doc) + r)
  {
    var t := if items.more.NoItems? then "" else items.after + ("," + PrintItems(items.more));
    r := if items.more.NoItems? then rest else items.after + ("," + (PrintItems(items.more) + rest));
    Continued(items.before, Print(items.doc), t, rest);
    Separated(items.after, PrintItems(items.more), rest);
  }

  lemma {:induction false} ItemsParse(items: Items, rest: string)
    requires WfItems(items) && items.Item? && Next(rest, ']')
    ensures ParseItems(PrintItems(items) + rest) == Match(Values(items), rest)
    decreases items
  {
    var r := ItemsUnfold(items, rest);
    var s := items.before + (Print(items.doc) + r);
    hide Print, PrintItems, ParseItems, Ws, Skip;
    if items.more.Item? {
      EndsOf(items.after, ',', PrintItems(items.more) + rest);
      ItemsParse(items.more, rest);
    }
    DocParses(items.doc, items.before, r);
    ItemsStep(s, Value(items.doc), r);
    assert items.more.NoItems? ==> [Value(items.doc)] + [] == [Value(items.doc)];
  }

  lemma Continued(before: string, text: string, more: string, rest: string)
    ensures before + (text + more) + rest == before + (text + (more + rest))
    ensures "" + rest == rest
  {
    Assoc(before, text + more, rest);
    Assoc(text, more, rest);
  }

  lemma Separated(after: string, more: string, rest: string)
    ensures after + ("," + more) + rest == after + ("," + (more + rest))
  {
    Assoc(after, "," + more, rest);
    Assoc(",", more, rest);
  }

  lemma {:induction false} ObjectParses(d: Doc, ws: string, rest: string)
    requires Wf(d) && d.DObject? && Ws(ws)
    ensures ParseObject(ws + (Print(d) + rest)) == Match(Value(d), rest)
    decreases d, 0
  {
    var end := d.ws + ("}" + rest);
    var inner := PrintMembers(d.members) + end;
    assert Print(d) + rest == "{" + inner by { Enclosed("{", PrintMembers(d.members), d.ws, "}", rest); }
    EndsOf(ws, '{', inner);
    EndsOf(d.ws, '}', rest);
    hide ParsePairs, ParseObject, Print, Ws, Skip, PrintMembers;
    if d.members.NoMembers? {
      assert inner == end by { NothingPrinted(end); }
      CloserIsNoPair(end);
    } else {
      MembersParse(d.members, end);
    }
    ObjectStep(ws + (Print(d) + rest), inner, end, rest, if d.members.NoMembers? then [] else Pairs(d.members));
  }

  lemma CloserIsNoPair(s: string)
    requires Next(s, '}')
    ensures ParsePairs(s) == NoMatch
  {
    OtherAlternatives(s, '}');
    hide ParseString, ParseValue;
  }

  lemma ObjectStep(s: string, inner: string, end: string, rest: string, ps: seq<(string, Json)>)
    requires Next(s, '{') && Skip(s)[1..] == inner && Next(end, '}') && Skip(end)[1..] == rest
    requires ParsePairs(inner) == Match(ps, end) || (ParsePairs(inner) == NoMatch && ps == [] && inner == end)
    ensures ParseObject(s) == Match(JObject(FirstWins(map[], ps)), rest)
  {
    hide ParsePairs, Skip;
  }

  lemma {:induction false} PairsStep(s: string, ms: Members, r: string, rest: string)
    requires WfMembers(ms) && ms.Member?
    requires ParsePair(s) == Match((TextOf(ms.name), Value(ms.doc)), r)
    requires ms.more.NoMembers? ==> r == rest && !Next(r, ',')
    requires ms.more.Member? ==> Next(r, ',') && ParsePairs(Skip(r)[1..]) == Match(Pairs(ms.more), rest)
    ensures ParsePairs(s) == Match(Pairs(ms), rest)
  {
    hide ParsePair, Skip, Wf, Ws, Value, TextOf, WfPieces;
    var p := (TextOf(ms.name), Value(ms.doc));
    if ms.more.NoMembers? {
      assert Pairs(ms) == [p] + [] == [p];
      assert ParsePairs(s) == Match([p], r);
    } else {
      assert Pairs(ms) == [p] + Pairs(ms.more);
      assert ParsePairs(s) == Match([p] + Pairs(ms.more), rest);
    }
  }

  lemma {:induction false} MembersParse(ms: Members, rest: string)
    requires WfMembers(ms) && ms.Member? && Next(rest, '}')
    ensures ParsePairs(PrintMembers(ms) + rest) == Match(Pairs(ms), rest)
    decreases ms, 1
  {
    var r := MemberUnfold(ms, rest);
    hide PrintMembers, ParsePairs, Ws, Skip, MemberText, Value, TextOf, WfPieces, Wf;
    if ms.more.Member? {
      EndsOf(ms.after, ',', PrintMembers(ms.more) + rest);
      MembersParse(ms.more, rest);
    }
    MemberParses(ms, r);
    hide Pairs;
    PairsStep(MemberText(ms, r), ms, r, rest);
  }

  /** One member, with `r` behind it. */
  function MemberText(ms: Members, r: string): string
    requires ms.Member?
  {
    ms.before + (Quoted(ms.name) + (ms.colon + (":" + (ms.gap + (Print(ms.doc) + r)))))
  }

  lemma MemberUnfold(ms: Members, rest: string) returns (r: string)
    requires ms.Member?
    ensures r == if ms.more.NoMembers? then rest else ms.after + ("," + (PrintMembers(ms.more) + rest))
    ensures PrintMembers(ms) + rest == MemberText(ms, r)
  {
    var t := if ms.more.NoMembers? then "" else ms.after + ("," + PrintMembers(ms.more));
    var v := ms.gap + (Print(ms.doc) + t);
    r := if ms.more.NoMembers? then rest else ms.after + ("," + (PrintMembers(ms.more) + rest));
    Separated(ms.after, PrintMembers(ms.more), rest);
    Continued(ms.gap, Print(ms.doc), t, rest);
    SeparatedBy(ms.colon, ":", v, rest);
    Continued(ms.before, Quoted(ms.name), ms.colon + (":" + v), rest);
  }

  lemma SeparatedBy(a: string, b: string, c: string, rest: string)
    ensures a + (b + c) + rest == a + (b + (c + rest))
  {
    Assoc(a, b + c, rest);
    Assoc(b, c, rest);
  }

  lemma {:induction false} MemberParses(ms: Members, r: string)
    requires WfMembers(ms) && ms.Member? && Ends(r)
    ensures ParsePair(MemberText(ms, r)) == Match((TextOf(ms.name), Value(ms.doc)), r)
    decreases ms, 0
  {
    var v := ms.gap + (Print(ms.doc) + r);
    var t := ms.colon + (":" + v);
    DocParses(ms.doc, ms.gap, r);
    EndsOf(ms.colon, ':', v);
    hide Print, Ws, Skip, Ends, ParseString, ParseValue, Quoted, TextOf, PrintPieces, WfPieces;
    QuotedUnfold(ms.name, t);
    QuotedParses(ms.before, ms.name, t);
  }

  /** Printing any tree whose root is an object or an array, with any whitespace between its tokens
      and any text behind it, is undone by `parse_json`. */
  lemma ParseUndoesPrint(d: Doc, ws: string, trailing: string)
    requires Wf(d) && Ws(ws) && (d.DObject? || d.DArray?)
    ensures ParseJson(ws + (Print(d) + trailing)) == Some(Value(d))
  {
    hide ParseArray, ParseObject, Print, Value, Wf;
    if d.DObject? {
      ObjectParses(d, ws, trailing);
    } else {
      ArrayParses(d, ws, trailing);
      ArrayIsNoObject(ws + (Print(d) + trailing));
    }
  }

  lemma ArrayIsNoObject(s: string)
    requires ParseArray(s).Match?
    ensures ParseObject(s) == NoMatch
  {
    OtherAlternatives(s, '[');
  }

  /** A printed value that is neither object nor array starts with neither bracket. */
  lemma {:induction false} ScalarStart(d: Doc, trailing: string)
    requires Wf(d) && !d.DObject? && !d.DArray?
    ensures var s := Print(d) + trailing; s != "" && !IsSpace(s[0]) && s[0] != '[' && s[0] != '{'
  {
    match d
    case DNumber(n) =>
      NumberStarts(n);
      assert (NumberText(n) + trailing)[0] == NumberText(n)[0];
    case DString(text) =>
      hide PrintPieces;
      assert Quoted(text)[0] == '"';
    case _ =>
  }

  /** Printing is undone by `parse_json` if and only if the root is an object or an array; every other root is
      not read at all and gives the empty array. */
  lemma {:induction false} UndoneExactlyForContainers(d: Doc, ws: string, trailing: string)
    requires Wf(d) && Ws(ws)
    ensures ParseJson(ws + (Print(d) + trailing)) == Some(Value(d)) <==> d.DObject? || d.DArray?
    ensures !d.DObject? && !d.DArray? ==> ParseJson(ws + (Print(d) + trailing)) == Some(JArray([]))
  {
    if d.DObject? || d.DArray? {
      hide ParseJson, Print, Value, Wf;
      ParseUndoesPrint(d, ws, trailing);
    } else {
      ScalarStart(d, trailing);
      var t := Print(d) + trailing;
      assert Value(d) != JArray([]);
      hide ParseItems, ParsePairs, Print, Value, Wf;
      SkipsWs(ws, t);
      OtherAlternatives(ws + t, t[0]);
    }
  }
}
