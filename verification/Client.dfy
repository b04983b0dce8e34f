/**
 The client's response handler, and the whole pipeline: bytes arriving in any pieces become chunks,
 chunks become JSON values, and values become the contents of the stores.
 */
module Client {
  import opened Text
  import opened Utf8
  import opened Json
  import JsonStrings
  import JsonPrint
  import JsonReads
  import opened JsonCompact
  import opened HttpReader
  import H = HttpRuns
  import opened Stores
  import opened StoreRuns
  import StoreLaws
  import StoreEntities

  datatype Api = UserStream | FriendsTimeline | StatusesUpdate

  /** `for_each` over the reversed array: an exception ends it, what was done before stays. */
  function ProcessReversed(env: Env, st: State, items: seq<Json>): (State, Outcome)
    decreases |items|
  {
    if items == [] then (st, Ignored)
    else
      var (st1, outcome) := ProcessEntity(env, st, items[|items| - 1]);
      if outcome.Thrown? then (st1, Thrown) else ProcessReversed(env, st1, items[..|items| - 1])
  }

  /** `http_handler` for a response: other statuses are only reported, exceptions are swallowed. */
  function Handled(env: Env, api: Api, st: State, res: Response): State {
    if res.head.status != 200 then st
    else match ParseJson(res.data)
      case None => st
      case Some(t) =>
        match api
        case UserStream => if '{' in res.data then ProcessEntity(env, st, t).0 else st
        case FriendsTimeline => if t.JArray? then ProcessReversed(env, st, t.items).0 else st
        case StatusesUpdate => st
  }

  /** The handler called for each of a sequence of responses. */
  function HandleAll(env: Env, api: Api, st: State, calls: seq<Response>): State {
    if calls == [] then st
    else Handled(env, api, HandleAll(env, api, st, calls[..|calls| - 1]), calls[|calls| - 1])
  }

  /** The object: the handler works on the global stores in place. */
  class TwitterClient {
    const store: Store

    constructor (store: Store)
      ensures this.store == store
    {
      this.store := store;
    }

    /** The reversed `for_each`, ended by the first exception. */
    method ProcessTimeline(env: Env, items: seq<Json>)
      modifies store
      ensures store.View() == ProcessReversed(env, old(store.View()), items).0
    {
      hide ProcessEntity;
      var n := |items|;
      assert items[..n] == items;
      while n > 0
        invariant n <= |items|
        invariant ProcessReversed(env, store.View(), items[..n]).0 == ProcessReversed(env, old(store.View()), items).0
      {
        assert items[..n][..n - 1] == items[..n - 1];
        var outcome := store.Process(env, items[n - 1]);
        if outcome.Thrown? {
          return;
        }
        n := n - 1;
      }
    }

    method HttpHandler(env: Env, api: Api, res: Response)
      modifies store
      ensures store.View() == Handled(env, api, old(store.View()), res)
    {
      hide ParseJson, ProcessEntity;
      if res.head.status != 200 {
        return;
      }
      var t := ParseJson(res.data);
      if t.None? {
        return;
      }
      match api
      case UserStream =>
        if '{' in res.data {
          var _ := store.Process(env, t.value);
        }
      case FriendsTimeline =>
        if t.value.JArray? {
          ProcessTimeline(env, t.value.items);
        }
      case StatusesUpdate =>
    }
  }

  // ----- The user stream

  /** What a chunk of the stream carries: one printed object with text around it, or a bare line end. */
  datatype AnyItem = Entity(before: string, doc: JsonPrint.Doc, behind: string) | LineEnd(ws: string)

  predicate WfItem(i: AnyItem) {
    match i
    case Entity(before, doc, _) => Ws(before) && JsonPrint.Wf(doc) && doc.DObject?
    case LineEnd(ws) => Ws(ws)
  }

  type Item = i: AnyItem | WfItem(i) witness LineEnd("")

  function ItemText(i: Item): string {
    match i
    case Entity(before, doc, behind) => before + (JsonPrint.Print(doc) + behind)
    case LineEnd(ws) => ws
  }

  function ItemValue(i: Item): (vs: seq<Json>)
    ensures |vs| <= 1
  { if i.Entity? then [JsonPrint.Value(i.doc)] else []
  }

  function Values(items: seq<Item>): seq<Json> {
    if items == [] then [] else Values(items[..|items| - 1]) + ItemValue(items[|items| - 1])
  }

  /** A chunked 200 response whose chunks carry the items. */
  predicate Carries(m: H.Message, items: seq<Item>) {
    H.Wf(m) && m.line.status == 200 && |m.chunks| == |items| &&
    forall i | 0 <= i < |items| :: m.chunks[i].data == ItemText(items[i])
  }

  lemma ObjectTextHasBrace(before: string, doc: JsonPrint.Doc, behind: string)
    requires doc.DObject?
    ensures '{' in before + (JsonPrint.Print(doc) + behind)
  {
    var p := JsonPrint.Print(doc);
    assert p[0] == '{';
    assert (before + (p + behind))[|before|] == '{';
  }

  lemma BlankIsSkipped(ws: string)
    requires Ws(ws)
    ensures Skip(ws) == "" && '{' !in ws
  {
    assert forall i | 0 <= i < |ws| :: IsSpace(ws[i]);
    SkipsWs(ws, "");
    assert ws + "" == ws;
  }

  /** One delivered item: an object is processed, a line end changes nothing. */
  lemma ItemHandled(env: Env, st: State, i: Item, res: Response)
    requires res.head.status == 200 && res.data == ItemText(i) + CRLF
    ensures Handled(env, UserStream, st, res)
         == if i.Entity? then ProcessEntity(env, st, JsonPrint.Value(i.doc)).0 else st
  {
    hide ParseJson, ProcessEntity, JsonPrint.Print, JsonPrint.Wf, JsonPrint.Value;
    match i
    case Entity(before, doc, behind) =>
      Assoc(before, JsonPrint.Print(doc) + behind, CRLF);
      Assoc(JsonPrint.Print(doc), behind, CRLF);
      JsonPrint.ParseUndoesPrint(doc, before, behind + CRLF);
      ObjectTextHasBrace(before, doc, behind + CRLF);
    case LineEnd(ws) =>
      BlankIsSkipped(ws + CRLF);
  }

  /** The text of a printed tweet reaches the stores, up to carriage returns, as meant if and only if its
      control escapes are line feeds. */
  lemma {:induction false} TweetTextArrives(
      env: Env, before: string, doc: JsonPrint.Doc, behind: string, text: seq<JsonStrings.Piece>, inner: Option<u64>)
    requires WfItem(Entity(before, doc, behind)) && JsonStrings.WfPieces(text)
    requires var o := JsonPrint.Value(doc).fields;
      Complete(o) && FindString(o, "text") == Some(JsonStrings.TextOf(text))
    ensures var j := ParseJson(before + (JsonPrint.Print(doc) + behind));
      j.Some? && j.value.JObject? && Complete(j.value.fields) &&
      (TweetOf(env, j.value.fields, inner).text == CrToLf(EncodeAll(JsonStrings.Meanings(text))) <==>
       JsonStrings.OnlyLineFeeds(text))
  {
    JsonStrings.MeantExactly(text);
    assert JsonPrint.Value(doc).JObject?;
    hide JsonPrint.Value, JsonPrint.Print, JsonPrint.Wf, JsonStrings.TextOf, JsonStrings.Meanings,
      JsonStrings.OnlyLineFeeds, ParseJson, Complete, FindString, EncodeAll, CrToLf;
    JsonPrint.ParseUndoesPrint(doc, before, behind);
  }

  lemma {:induction false} CallStep(env: Env, st: State, m: H.Message, items: seq<Item>, calls: seq<Response>)
    requires Carries(m, items) && H.CallsAre(m, calls) && calls != []
    ensures var k := |calls| - 1;
      var before := HandleAll(env, UserStream, st, calls[..k]);
      k < |items| && H.CallsAre(m, calls[..k]) &&
      HandleAll(env, UserStream, st, calls)
        == if items[k].Entity? then ProcessEntity(env, before, JsonPrint.Value(items[k].doc)).0 else before
  {
    hide Handled, ProcessEntity, ItemText, WfItem, H.Wf, H.HeadOf;
    var k := |calls| - 1;
    assert calls[k] == H.Delivery(m, k) && calls[k].data == ItemText(items[k]) + CRLF;
    assert calls[k].head.status == 200 by { DeliveryStatus(m, k); }
    ItemHandled(env, HandleAll(env, UserStream, st, calls[..k]), items[k], calls[k]);
  }

  lemma DeliveryStatus(m: H.Message, k: nat)
    requires k < |m.chunks|
    ensures H.Delivery(m, k).head.status == m.line.status
  {}

  lemma {:induction false} CallsHandled(env: Env, st: State, m: H.Message, items: seq<Item>, calls: seq<Response>)
    requires Carries(m, items) && H.CallsAre(m, calls)
    ensures HandleAll(env, UserStream, st, calls) == AfterEntities(env, st, Values(items[..|calls|]))
    decreases |calls|
  {
    hide WfItem, ProcessEntity, Carries, H.CallsAre, HandleAll, Values, AfterEntities, JsonPrint.Value;
    if calls == [] {
      NoCalls(env, st);
      assert items[..0] == [];
    } else {
      CallStep(env, st, m, items, calls);
      CallsHandled(env, st, m, items, calls[..|calls| - 1]);
      PrefixStep(env, st, items, |calls| - 1);
    }
  }

  lemma NoCalls(env: Env, st: State)
    ensures HandleAll(env, UserStream, st, []) == AfterEntities(env, st, Values([]))
  {}

  lemma PrefixStep(env: Env, st: State, items: seq<Item>, k: nat)
    requires k < |items|
    ensures var before := AfterEntities(env, st, Values(items[..k]));
      AfterEntities(env, st, Values(items[..k + 1]))
        == if items[k].Entity? then ProcessEntity(env, before, JsonPrint.Value(items[k].doc)).0 else before
  {
    hide WfItem, ProcessEntity, Values, AfterEntities, JsonPrint.Value;
    ValuesStep(env, st, items[..k], items[k]);
    assert items[..k] + [items[k]] == items[..k + 1];
  }

  lemma ValuesStep(env: Env, st: State, items: seq<Item>, i: Item)
    ensures var before := AfterEntities(env, st, Values(items));
      AfterEntities(env, st, Values(items + [i]))
        == if i.Entity? then ProcessEntity(env, before, JsonPrint.Value(i.doc)).0 else before
  {
    hide ProcessEntity, JsonPrint.Value, AfterEntities;
    assert (items + [i])[..|items|] == items;
    assert Values(items + [i]) == Values(items) + ItemValue(i);
    if i.Entity? {
      AfterOneMore(env, st, Values(items), JsonPrint.Value(i.doc));
    } else {
      assert Values(items) + [] == Values(items);
    }
  }

  /** Which entities of a run end undefined: those that miss their user. */
  ghost predicate UndefinedExactly(env: Env, st: State, ts: seq<Json>) {
    forall k | 0 <= k < |ts| ::
      ProcessEntity(env, AfterEntities(env, st, ts[..k]), ts[k]).1 == Undefined <==>
      StoreLaws.MissesUser(env, st, ts[..k], ts[k])
  }

  lemma {:induction false} UndefinedIs(env: Env, st: State, ts: seq<Json>)
    ensures UndefinedExactly(env, st, ts)
  {
    hide ProcessEntity, AfterEntities, StoreLaws.MissesUser;
    forall k | 0 <= k < |ts|
      ensures ProcessEntity(env, AfterEntities(env, st, ts[..k]), ts[k]).1 == Undefined <==>
              StoreLaws.MissesUser(env, st, ts[..k], ts[k])
    {
      StoreLaws.LookupFailsExactly(env, st, ts[..k], ts[k]);
    }
  }

  /** End to end, at every moment and whatever the stores hold at first: however the bytes of such a stream are cut
      into arrivals and whenever the completions run, the stores equal the replay of the entities delivered
      so far; once everything has arrived and no completion is enabled that is all of them, in order.
      On the way the printing of an entity is undefined if and only if the entity misses its user. */
  lemma {:induction false} StreamReachesStores(
      env: Env, st: State, m: H.Message, items: seq<Item>, es: seq<Event>, future: string)
    requires Carries(m, items) && IsRun(es) && Received(es) + future == H.Stream(m)
    ensures |After(es).calls| <= |items|
    ensures HandleAll(env, UserStream, st, After(es).calls)
         == Replay(st, RunOps(env, Values(items[..|After(es).calls|])))
    ensures future == "" && !After(es).Enabled() ==>
              HandleAll(env, UserStream, st, After(es).calls) == Replay(st, RunOps(env, Values(items)))
    ensures UndefinedExactly(env, st, Values(items[..|After(es).calls|]))
  {
    hide H.Wf, H.Stream, Run, Received, Replay, RunOps, WfItem, ItemText, Reader.Enabled, HandleAll, H.Delivery,
      ProcessEntity, AfterEntities, Values, UndefinedExactly;
    H.DeliversPrefix(m, es, future);
    var calls := After(es).calls;
    CallsHandled(env, st, m, items, calls);
    var ts := Values(items[..|calls|]);
    RunReplays(env, st, ts);
    UndefinedIs(env, st, ts);
    if future == "" && !After(es).Enabled() {
      assert Received(es) == Received(es) + future;
      H.AllDelivered(m, es);
      assert items[..|items|] == items;
    }
  }

  /** And where no name is given to two ids, neither by the stream nor by any entity handled before it, every stored
      tweet's user is found at every moment, and no entity that was handled on the way ended undefined. */
  lemma {:induction false} StreamUsersAreFound(
      env: Env, past: seq<Json>, m: H.Message, items: seq<Item>, es: seq<Event>, future: string)
    requires Carries(m, items) && IsRun(es) && Received(es) + future == H.Stream(m)
    requires StoreLaws.NamesIdentifyIds(RunOps(env, past + Values(items)))
    ensures var st := AfterEntities(env, EMPTY, past);
      StoreLaws.LookupsFind(HandleAll(env, UserStream, st, After(es).calls)) &&
      |After(es).calls| <= |items| &&
      var ts := Values(items[..|After(es).calls|]);
      forall k | 0 <= k < |ts| :: ProcessEntity(env, AfterEntities(env, st, ts[..k]), ts[k]).1 != Undefined
  {
    hide H.Wf, H.Stream, Run, Received, Replay, WfItem, HandleAll, StoreLaws.LookupsFind, RunOps, Values, AfterEntities,
      ProcessEntity, UndefinedExactly, StoreLaws.NamesIdentifyIds;
    var st := AfterEntities(env, EMPTY, past);
    StreamReachesStores(env, st, m, items, es, future);
    var some := items[..|After(es).calls|];
    var ts := Values(some);
    RunReplays(env, st, ts);
    ValuesPrefix(items, |some|);
    StoreLaws.FewerNames(env, past + ts, past + Values(items));
    AfterAppend(env, EMPTY, past, ts);
    StoreLaws.AllFound(env, past + ts);
    forall k | 0 <= k < |ts|
      ensures ProcessEntity(env, AfterEntities(env, st, ts[..k]), ts[k]).1 != Undefined
    {
      AfterAppend(env, EMPTY, past, ts[..k]);
      assert (past + ts)[..|past| + k] == past + ts[..k] && (past + ts)[|past| + k] == ts[k];
      StoreLaws.AllDefined(env, past + ts, |past| + k);
    }
  }

  lemma {:induction false} ValuesPrefix(items: seq<Item>, k: nat)
    requires k <= |items|
    ensures forall t | t in Values(items[..k]) :: t in Values(items)
    decreases |items|
  {
    if k < |items| {
      var n := |items| - 1;
      ValuesPrefix(items[..n], k);
      assert items[..n][..k] == items[..k];
      hide ItemValue;
    } else {
      assert items[..k] == items;
    }
  }

  // ----- The timeline

  predicate Throws(t: Json) {
    !t.JObject? ||
    if "text" in t.fields then !AllComplete(Levels(t)) else "delete" in t.fields && DeletedId(t.fields).None?
  }

  /** Last entity first, up to and including the first one that throws. */
  function UntilThrow(items: seq<Json>): seq<Json> {
    if items == [] then []
    else
      var last := items[|items| - 1];
      [last] + (if Throws(last) then [] else UntilThrow(items[..|items| - 1]))
  }

  /** An entity throws because of what it is, never because of what the stores hold. */
  lemma ThrownIs(env: Env, st: State, t: Json)
    ensures ProcessEntity(env, st, t).1.Thrown? <==> Throws(t)
  {
    if t.JObject? && "text" in t.fields {
      ConstructReplays(env, st, t);
      hide Construct, AllComplete, Levels, TweetAt, UserOps, TweetOps;
    }
  }

  /** The reversed array equals the replay of its entities from the last to the first, cut after
      the first one that throws. */
  lemma {:induction false} TimelineReplays(env: Env, st: State, items: seq<Json>)
    ensures ProcessReversed(env, st, items).0 == Replay(st, RunOps(env, UntilThrow(items)))
    decreases |items|
  {
    if items == [] {
      ReplayNothing(st);
    } else {
      var front, last := items[..|items| - 1], items[|items| - 1];
      var rest := if Throws(last) then [] else UntilThrow(front);
      ThrownIs(env, st, last);
      ProcessReplays(env, st, last);
      RunOpsCons(env, last, rest);
      hide ProcessEntity, EntityOps, Replay, Throws, RunOps;
      ReplayAppend(st, EntityOps(env, last), RunOps(env, rest));
      if Throws(last) {
        ReplayNothing(ProcessEntity(env, st, last).0);
        assert RunOps(env, []) == [] by { NoOps(env); }
      } else {
        TimelineReplays(env, ProcessEntity(env, st, last).0, front);
      }
    }
  }

  /** A timeline response: a printed array delivered by Content-Length in any pieces ends in that replay, and on the
      way the printing of an entity is undefined if and only if the entity misses its user. */
  lemma TimelineReachesStores(
      env: Env, st: State, m: H.PlainMessage, ws: string, doc: JsonPrint.Doc, behind: string, es: seq<Event>)
    requires H.WfPlain(m) && m.line.status == 200 && IsRun(es) && Received(es) == H.PlainStream(m)
    requires Ws(ws) && JsonPrint.Wf(doc) && doc.DArray? && m.body == ws + (JsonPrint.Print(doc) + behind)
    requires !After(es).Enabled()
    ensures HandleAll(env, FriendsTimeline, st, After(es).calls)
         == Replay(st, RunOps(env, UntilThrow(JsonPrint.Values(doc.items))))
    ensures UndefinedExactly(env, st, UntilThrow(JsonPrint.Values(doc.items)))
  {
    ArrayTextHasBracket(ws, doc, behind);
    hide H.WfPlain, H.PlainStream, Run, Received, Replay, JsonPrint.Wf, JsonPrint.Print, Handled, RunOps, UntilThrow,
      Reader.Enabled, JsonPrint.Values, H.PlainCall, UndefinedExactly;
    UndefinedIs(env, st, UntilThrow(JsonPrint.Values(doc.items)));
    assert Received(es) == Received(es) + "";
    H.PlainDelivered(m, es, "");
    HandleOne(env, FriendsTimeline, st, H.PlainCall(m));
    TimelineBodyHandled(env, st, m, ws, doc, behind);
  }

  lemma TimelineBodyHandled(env: Env, st: State, m: H.PlainMessage, ws: string, doc: JsonPrint.Doc, behind: string)
    requires m.line.status == 200
    requires Ws(ws) && JsonPrint.Wf(doc) && doc.DArray? && m.body == ws + (JsonPrint.Print(doc) + behind)
    ensures Handled(env, FriendsTimeline, st, H.PlainCall(m))
         == Replay(st, RunOps(env, UntilThrow(JsonPrint.Values(doc.items))))
  {
    assert JsonPrint.Value(doc) == JArray(JsonPrint.Values(doc.items));
    HeadStatus(m);
    hide Replay, JsonPrint.Wf, JsonPrint.Print, ParseJson, ProcessReversed, UntilThrow, JsonPrint.Values, H.HeadOf,
      RunOps;
    JsonPrint.ParseUndoesPrint(doc, ws, behind);
    TimelineReplays(env, st, JsonPrint.Values(doc.items));
  }

  lemma ArrayTextHasBracket(ws: string, doc: JsonPrint.Doc, behind: string)
    requires doc.DArray?
    ensures ws + (JsonPrint.Print(doc) + behind) != ""
  {
    assert JsonPrint.Print(doc)[0] == '[';
  }

  lemma HandleOne(env: Env, api: Api, st: State, res: Response)
    ensures HandleAll(env, api, st, [res]) == Handled(env, api, st, res)
  {
    hide Handled;
    assert [res][..0] == [];
  }

  lemma HeadStatus(m: H.PlainMessage)
    ensures H.HeadOf(m.line, m.fields).status == m.line.status
  {}

  // ----- Responses that change nothing

  /** The responses with status 200. */
  function Successes(calls: seq<Response>): seq<Response> {
    if calls == [] then []
    else Successes(calls[..|calls| - 1]) + (if calls[|calls| - 1].head.status == 200 then [calls[|calls| - 1]] else [])
  }

  /** For every kind of request, responses of any other status might as well not have come. */
  lemma {:induction false} OnlySuccessesCount(env: Env, api: Api, st: State, calls: seq<Response>)
    ensures HandleAll(env, api, st, calls) == HandleAll(env, api, st, Successes(calls))
  {
    if calls != [] {
      var front, last := calls[..|calls| - 1], calls[|calls| - 1];
      OnlySuccessesCount(env, api, st, front);
      var some := Successes(front);
      var now := HandleAll(env, api, st, some);
      assert last.head.status != 200 ==> Handled(env, api, now, last) == now;
      hide Handled;
      if last.head.status == 200 {
        assert (some + [last])[..|some|] == some;
      } else {
        assert some + [] == some;
      }
    }
  }

  /** The responses to status updates leave the stores as they were. */
  lemma {:induction false} UpdatesChangeNothing(env: Env, st: State, calls: seq<Response>)
    ensures HandleAll(env, StatusesUpdate, st, calls) == st
  {
    if calls != [] {
      UpdatesChangeNothing(env, st, calls[..|calls| - 1]);
      hide ParseJson;
    }
  }

  /** So does a whole connection of an update, at every moment of every run on any bytes. */
  lemma UpdateConnection(env: Env, st: State, es: seq<Event>)
    requires IsRun(es)
    ensures HandleAll(env, StatusesUpdate, st, After(es).calls) == st
  {
    UpdatesChangeNothing(env, st, After(es).calls);
  }

  /** A text that opens with a bracket and is no printed tree throws, and changes nothing. */
  lemma {:induction false} UnreadableChangesNothing(env: Env, api: Api, st: State, res: Response)
    requires (Next(res.data, '{') || Next(res.data, '[')) && !JsonReads.Printed(res.data)
    ensures Handled(env, api, st, res) == st
  {
    hide ParseJson, Next, JsonReads.Printed, ProcessEntity, ProcessReversed;
    JsonReads.ReadExactly(res.data);
  }

  /** A timeline that is an object, and a stream entity that is an array, change nothing. */
  lemma {:induction false} WrongRootChangesNothing(
      env: Env, st: State, res: Response, before: string, doc: JsonPrint.Doc, behind: string)
    requires Ws(before) && JsonPrint.Wf(doc) && res.data == before + (JsonPrint.Print(doc) + behind)
    ensures doc.DObject? ==> Handled(env, FriendsTimeline, st, res) == st
    ensures doc.DArray? ==> Handled(env, UserStream, st, res) == st
  {
    if doc.DObject? || doc.DArray? {
      assert doc.DObject? ==> JsonPrint.Value(doc).JObject?;
      assert doc.DArray? ==> JsonPrint.Value(doc).JArray?;
      hide ParseJson, JsonPrint.Wf, JsonPrint.Print, JsonPrint.Value, ProcessReversed, InsertNewTweet;
      JsonPrint.ParseUndoesPrint(doc, before, behind);
    }
  }

  // ----- Entities as they are printed

  /** A delete entity in a chunk of the stream, printed with any further members: the tweet of that id is gone from
      both indices, and nothing else has changed. */
  lemma {:induction false} DeleteArrives(
      env: Env, st: State, i: Item, res: Response, n: int, top: Fields, mid: Fields, low: Fields)
    requires res.head.status == 200 && res.data == ItemText(i) + CRLF
    requires i.Entity? && "text" !in top && JsonPrint.Value(i.doc) == StoreEntities.DeleteJson(n, top, mid, low)
    ensures var id: u64 := n % 18446744073709551616;
      var end := Handled(env, UserStream, st, res);
      end.users == st.users && end.tweets == st.tweets - {id} && end.byDate == WithoutId(st.byDate, id) &&
      forall t :: t in end.byDate <==> t in st.byDate && t.id != id
  {
    hide ItemText, Handled, ProcessEntity, JsonPrint.Value, StoreEntities.DeleteJson, WithoutId, WfItem;
    ItemHandled(env, st, i, res);
    StoreEntities.DeleteRemoves(env, st, n, top, mid, low);
  }

  /** The shortest delete entity as text, an item of a stream like any other. */
  function DeleteDoc(n: int): JsonPrint.Doc {
    PlainKeys();
    Object([("delete", Object([("status", Object([("id", Integer(n))]))]))])
  }

  lemma PlainKeys()
    ensures PlainName("delete") && PlainName("status") && PlainName("id")
    ensures PlainName("user") && PlainName("text") && PlainName("created_at") && PlainName("screen_name")
  {}

  lemma {:induction false} DeleteText(n: int)
    requires INT64_MIN <= n <= INT64_MAX
    ensures WfItem(Entity("", DeleteDoc(n), ""))
    ensures ItemText(Entity("", DeleteDoc(n), "")) == "{\"delete\":{\"status\":{\"id\":" + Show(n) + "}}}"
    ensures JsonPrint.Value(DeleteDoc(n)) == StoreEntities.DeleteJson(n, map[], map[], map[])
  {
    PlainKeys();
    IntegerIs(n);
    NoWs();
    hide Object, Integer, JsonPrint.Print, JsonPrint.Wf, JsonPrint.Value, Show, Ws, PlainName;
    var low := Object([("id", Integer(n))]);
    var mid := Object([("status", low)]);
    SingleIs("id", Integer(n));
    SingleIs("status", low);
    SingleIs("delete", mid);
    var p := JsonPrint.Print(DeleteDoc(n));
    EmptyFront(p);
    DeleteBraces(Show(n));
  }

  lemma DeleteBraces(s: string)
    ensures "{\"" + "delete" + "\":" + ("{\"" + "status" + "\":" + ("{\"" + "id" + "\":" + s + "}") + "}") + "}"
         == "{\"delete\":{\"status\":{\"id\":" + s + "}}}"
  {}

  /** The shortest tweet as text. */
  function TweetDoc(id: int, userId: int, name: string, text: string, date: string): JsonPrint.Doc
    requires Ascii(name) && Ascii(text) && Ascii(date)
  {
    PlainKeys();
    Object([("user", Object([("id", Integer(userId)), ("screen_name", AsciiDoc(name))])),
            ("text", AsciiDoc(text)), ("id", Integer(id)), ("created_at", AsciiDoc(date))])
  }

  /** Delivered in a chunk it ends as that tweet by that user, with every field in its place. */
  lemma {:induction false} TweetArrives(
      env: Env, st: State, res: Response, id: int, userId: int, name: string, text: string, date: string)
    requires INT64_MIN <= id <= INT64_MAX && INT64_MIN <= userId <= INT64_MAX
    requires Ascii(name) && Ascii(text) && Ascii(date) && res.head.status == 200
    requires res.data == JsonPrint.Print(TweetDoc(id, userId, name, text, date)) + CRLF
    ensures var user: Fields := map["id" := JInt(userId), "screen_name" := JString(name)];
      var u := User(userId % 18446744073709551616, name, user);
      var t := Tweet(id % 18446744073709551616, userId % 18446744073709551616, CrToLf(text), env.date(date), "",
                     None, None, None, None, None);
      Handled(env, UserStream, st, res) == InsertTweet(InsertUser(st, u), t)
  {
    var doc := TweetDoc(id, userId, name, text, date);
    TweetDocIs(id, userId, name, text, date);
    NoWs();
    var p := JsonPrint.Print(doc);
    EmptyFront(p);
    hide TweetDoc, JsonPrint.Print, JsonPrint.Wf, JsonPrint.Value, Handled, ProcessEntity, Ws, InsertTweet, InsertUser,
      CrToLf, StoreEntities.BareObject;
    var i: Item := Entity("", doc, "");
    assert ItemText(i) == p;
    ItemHandled(env, st, i, res);
    StoreEntities.BareTweet(env, st, id, userId, name, text, date);
  }

  lemma {:induction false} TweetDocIs(id: int, userId: int, name: string, text: string, date: string)
    requires INT64_MIN <= id <= INT64_MAX && INT64_MIN <= userId <= INT64_MAX
    requires Ascii(name) && Ascii(text) && Ascii(date)
    ensures var doc := TweetDoc(id, userId, name, text, date);
      JsonPrint.Wf(doc) && doc.DObject? &&
      JsonPrint.Value(doc)
        == JObject(StoreEntities.BareObject(id, StoreEntities.BareUser(userId, name), text, date))
  {
    PlainKeys();
    IntegerIs(userId);
    AsciiIs(name);
    AsciiIs(text);
    IntegerIs(id);
    AsciiIs(date);
    assert "user"[0] == 'u' && "text"[0] == 't' && "id"[0] == 'i' && "created_at"[0] == 'c' && "screen_name"[0] == 's';
    hide Integer, AsciiDoc, JsonPrint.Wf, JsonPrint.Value, Object, PlainName;
    var a, b := ("id", Integer(userId)), ("screen_name", AsciiDoc(name));
    TwoAre(a, b);
    FourAre(("user", Object([a, b])), ("text", AsciiDoc(text)), ("id", Integer(id)), ("created_at", AsciiDoc(date)));
  }
}
