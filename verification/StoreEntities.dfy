/**
 Single entities key by key: what every member of a tweet or user object sets, what a delete entity removes and
 when it throws, and the date index in terms of the entities themselves.
 */
module StoreEntities {
  import opened Text
  import opened Json
  import opened Stores
  import opened StoreRuns
  import opened StoreLaws

  // ----- The keys of a tweet

  /** A complete object has four members of the right types. */
  lemma CompleteIs(o: Fields)
    ensures Complete(o) <==>
      "user" in o && o["user"].JObject? && "text" in o && o["text"].JString? &&
      "id" in o && o["id"].JInt? && "created_at" in o && o["created_at"].JString?
  {}

  /** Whatever is put under one key, only the field of that key can change. */
  lemma OneKeyOneField(env: Env, o: Fields, k: string, v: Json, inner: Option<u64>)
    requires Complete(o) && Complete(o[k := v])
    ensures var t, t' := TweetOf(env, o, inner), TweetOf(env, o[k := v], inner);
      (t'.id != t.id ==> k == "id") &&
      (t'.userId != t.userId ==> k == "user") &&
      (t'.text != t.text ==> k == "text") &&
      (t'.createdAt != t.createdAt ==> k == "created_at") &&
      (t'.source != t.source ==> k == "source") &&
      (t'.inReplyToStatus != t.inReplyToStatus ==> k == "in_reply_to_status_id") &&
      (t'.inReplyToUser != t.inReplyToUser ==> k == "in_reply_to_user_id") &&
      (t'.retweetedStatus != t.retweetedStatus ==> k == "retweeted_status_id") &&
      (t'.truncated != t.truncated ==> k == "truncated") &&
      (t'.favorited != t.favorited ==> k == "favorited")
  {
    hide UserOf, CrToLf;
  }

  lemma NamesDiffer()
    ensures "user" != "text" && "user" != "id" && "user" != "created_at"
    ensures "text" != "id" && "text" != "created_at" && "id" != "created_at"
  {
    assert "user"[0] == 'u' && "text"[0] == 't' && "id"[0] == 'i' && "created_at"[0] == 'c';
  }

  /** Putting a value of the right type under a required key keeps the object complete. */
  lemma StaysComplete(o: Fields, k: string, v: Json)
    requires Complete(o)
    requires (k == "user" ==> v.JObject?) && (k == "text" ==> v.JString?) && (k == "id" ==> v.JInt?) &&
             (k == "created_at" ==> v.JString?)
    ensures Complete(o[k := v])
  {}

  /** So does any value under a name of another length. */
  lemma OptionalStaysComplete(o: Fields, k: string, v: Json)
    requires Complete(o) && |k| != 2 && |k| != 4 && |k| != 10
    ensures Complete(o[k := v])
  {
    assert |"user"| == |"text"| == 4 && |"id"| == 2 && |"created_at"| == 10;
    StaysComplete(o, k, v);
  }

  lemma IdSet(env: Env, o: Fields, inner: Option<u64>, n: int)
    requires Complete(o)
    ensures var o' := o["id" := JInt(n)]; Complete(o') && TweetOf(env, o', inner).id == n % 18446744073709551616
  {
    NamesDiffer();
    StaysComplete(o, "id", JInt(n));
    hide UserOf, CrToLf, Complete;
  }

  lemma TextSet(env: Env, o: Fields, inner: Option<u64>, s: string)
    requires Complete(o)
    ensures var o' := o["text" := JString(s)]; Complete(o') && TweetOf(env, o', inner).text == CrToLf(s)
  {
    NamesDiffer();
    StaysComplete(o, "text", JString(s));
    hide UserOf, CrToLf, Complete;
  }

  lemma DateSet(env: Env, o: Fields, inner: Option<u64>, s: string)
    requires Complete(o)
    ensures var o' := o["created_at" := JString(s)]; Complete(o') && TweetOf(env, o', inner).createdAt == env.date(s)
  {
    NamesDiffer();
    StaysComplete(o, "created_at", JString(s));
    hide UserOf, CrToLf, Complete;
  }

  lemma UserSet(env: Env, o: Fields, inner: Option<u64>, u: Fields)
    requires Complete(o)
    ensures var o' := o["user" := JObject(u)]; Complete(o') && TweetOf(env, o', inner).userId == UserOf(env, u).id
  {
    NamesDiffer();
    StaysComplete(o, "user", JObject(u));
    hide UserOf, CrToLf, Complete;
  }

  /** What the required members set. */
  lemma {:induction false} RequiredKeysSet(env: Env, o: Fields, inner: Option<u64>, n: int, s: string, u: Fields)
    requires Complete(o)
    ensures var o' := o["id" := JInt(n)]; Complete(o') && TweetOf(env, o', inner).id == n % 18446744073709551616
    ensures var o' := o["text" := JString(s)]; Complete(o') && TweetOf(env, o', inner).text == CrToLf(s)
    ensures var o' := o["created_at" := JString(s)]; Complete(o') && TweetOf(env, o', inner).createdAt == env.date(s)
    ensures var o' := o["user" := JObject(u)]; Complete(o') && TweetOf(env, o', inner).userId == UserOf(env, u).id
  {
    IdSet(env, o, inner, n);
    TextSet(env, o, inner, s);
    DateSet(env, o, inner, s);
    UserSet(env, o, inner, u);
    hide *;
  }

  lemma SourceSet(env: Env, o: Fields, inner: Option<u64>, s: string)
    requires Complete(o)
    ensures var o' := o["source" := JString(s)]; Complete(o') && TweetOf(env, o', inner).source == s
  {
    OptionalStaysComplete(o, "source", JString(s));
    hide UserOf, CrToLf, Complete;
  }

  lemma ReplyStatusSet(env: Env, o: Fields, inner: Option<u64>, n: int)
    requires Complete(o)
    ensures var o' := o["in_reply_to_status_id" := JInt(n)];
      Complete(o') && TweetOf(env, o', inner).inReplyToStatus == Some(n % 18446744073709551616)
  {
    OptionalStaysComplete(o, "in_reply_to_status_id", JInt(n));
    hide UserOf, CrToLf, Complete;
  }

  lemma ReplyUserSet(env: Env, o: Fields, inner: Option<u64>, n: int)
    requires Complete(o)
    ensures var o' := o["in_reply_to_user_id" := JInt(n)];
      Complete(o') && TweetOf(env, o', inner).inReplyToUser == Some(n % 18446744073709551616)
  {
    OptionalStaysComplete(o, "in_reply_to_user_id", JInt(n));
    hide UserOf, CrToLf, Complete;
  }

  lemma RetweetedSet(env: Env, o: Fields, inner: Option<u64>, n: int)
    requires Complete(o)
    ensures var o' := o["retweeted_status_id" := JInt(n)];
      Complete(o') && TweetOf(env, o', inner).retweetedStatus == Some(n % 18446744073709551616)
  {
    OptionalStaysComplete(o, "retweeted_status_id", JInt(n));
    hide UserOf, CrToLf, Complete;
  }

  lemma TruncatedSet(env: Env, o: Fields, inner: Option<u64>, b: bool)
    requires Complete(o)
    ensures var o' := o["truncated" := JBool(b)]; Complete(o') && TweetOf(env, o', inner).truncated == Some(b)
  {
    OptionalStaysComplete(o, "truncated", JBool(b));
    hide UserOf, CrToLf, Complete;
  }

  lemma FavoritedSet(env: Env, o: Fields, inner: Option<u64>, b: bool)
    requires Complete(o)
    ensures var o' := o["favorited" := JBool(b)]; Complete(o') && TweetOf(env, o', inner).favorited == Some(b)
  {
    OptionalStaysComplete(o, "favorited", JBool(b));
    hide UserOf, CrToLf, Complete;
  }

  /** What the optional members set. */
  lemma {:induction false} OptionalKeysSet(env: Env, o: Fields, inner: Option<u64>, n: int, s: string, b: bool)
    requires Complete(o)
    ensures var o' := o["source" := JString(s)]; Complete(o') && TweetOf(env, o', inner).source == s
    ensures var o' := o["in_reply_to_status_id" := JInt(n)];
      Complete(o') && TweetOf(env, o', inner).inReplyToStatus == Some(n % 18446744073709551616)
    ensures var o' := o["in_reply_to_user_id" := JInt(n)];
      Complete(o') && TweetOf(env, o', inner).inReplyToUser == Some(n % 18446744073709551616)
    ensures var o' := o["retweeted_status_id" := JInt(n)];
      Complete(o') && TweetOf(env, o', inner).retweetedStatus == Some(n % 18446744073709551616)
    ensures var o' := o["truncated" := JBool(b)]; Complete(o') && TweetOf(env, o', inner).truncated == Some(b)
    ensures var o' := o["favorited" := JBool(b)]; Complete(o') && TweetOf(env, o', inner).favorited == Some(b)
  {
    SourceSet(env, o, inner, s);
    ReplyStatusSet(env, o, inner, n);
    ReplyUserSet(env, o, inner, n);
    RetweetedSet(env, o, inner, n);
    TruncatedSet(env, o, inner, b);
    FavoritedSet(env, o, inner, b);
    hide *;
  }

  /** An optional member that is not an integer, a string or a truth value, where one is expected, counts as
      absent. */
  predicate WrongType(k: string, v: Json) {
    if k == "source" then !v.JString?
    else if k == "truncated" || k == "favorited" then !v.JBool?
    else !v.JInt?
  }

  predicate Lacks(o: Fields, k: string) { k !in o || WrongType(k, o[k]) }

  /** What stands without them. */
  lemma {:induction false} OptionalKeysLacking(env: Env, o: Fields, inner: Option<u64>)
    requires Complete(o)
    ensures var t := TweetOf(env, o, inner);
      (Lacks(o, "source") ==> t.source == "") &&
      (Lacks(o, "in_reply_to_status_id") <==> t.inReplyToStatus == None) &&
      (Lacks(o, "in_reply_to_user_id") <==> t.inReplyToUser == None) &&
      (Lacks(o, "retweeted_status_id") ==> t.retweetedStatus == inner) &&
      (Lacks(o, "truncated") <==> t.truncated == None) &&
      (Lacks(o, "favorited") <==> t.favorited == None)
  {
    assert "source" != "truncated" && "source" != "favorited" by { assert |"source"| == 6 && |"truncated"| == 9; }
    assert |"in_reply_to_status_id"| == 21 && |"in_reply_to_user_id"| == 19 && |"retweeted_status_id"| == 19;
    hide UserOf, CrToLf;
  }

  /** The same for a user: two keys, and what stands without them. */
  lemma UserKeys(env: Env, o: Fields, k: string, v: Json, n: int, s: string)
    ensures var u, u' := UserOf(env, o), UserOf(env, o[k := v]);
      (u'.id != u.id ==> k == "id" || ("id" !in o || !o["id"].JInt?)) &&
      (u'.screenName != u.screenName ==> k == "screen_name")
    ensures UserOf(env, o["id" := JInt(n)]).id == n % 18446744073709551616
    ensures UserOf(env, o["screen_name" := JString(s)]).screenName == s
    ensures "id" !in o || !o["id"].JInt? ==> UserOf(env, o).id == env.junk(o)
    ensures "screen_name" !in o || !o["screen_name"].JString? ==> UserOf(env, o).screenName == ""
  {}

  function BareUser(userId: int, name: string): Fields { map["id" := JInt(userId), "screen_name" := JString(name)] }

  /** An object with the required members and no others. */
  function BareObject(id: int, user: Fields, text: string, date: string): Fields {
    map["user" := JObject(user), "text" := JString(text), "id" := JInt(id), "created_at" := JString(date)]
  }

  /** The tweet and the user it gives. */
  lemma {:induction false} BareTweet(
      env: Env, st: State, id: int, userId: int, name: string, text: string, date: string)
    ensures var user := BareUser(userId, name);
      var u := User(userId % 18446744073709551616, name, user);
      var t := Tweet(id % 18446744073709551616, userId % 18446744073709551616, CrToLf(text), env.date(date), "",
                     None, None, None, None, None);
      var end := InsertTweet(InsertUser(st, u), t);
      ProcessEntity(env, st, JObject(BareObject(id, user, text, date)))
        == (end, PrintOutcome(end, id % 18446744073709551616))
  {
    var user := BareUser(userId, name);
    var o := BareObject(id, user, text, date);
    BareIs(env, userId, name);
    BareObjectIs(id, user, text, date);
    BareFields(env, o);
    hide UserOf, CrToLf, InsertTweet, InsertUser, PrintOutcome, Complete, TweetOf, FindObject, BareUser, BareObject;
    assert Construct(env, st, JObject(o)) == (InsertUser(st, UserOf(env, user)), Some(TweetOf(env, o, None)));
  }

  lemma BareIs(env: Env, userId: int, name: string)
    ensures UserOf(env, BareUser(userId, name)) == User(userId % 18446744073709551616, name, BareUser(userId, name))
  {
    assert "id"[0] == 'i' && "screen_name"[0] == 's';
  }

  lemma FourKeys(a: string, x: Json, b: string, y: Json, c: string, z: Json, d: string, w: Json)
    requires a != b && a != c && a != d && b != c && b != d && c != d
    ensures var o := map[a := x, b := y, c := z, d := w];
      o.Keys == {a, b, c, d} && o[a] == x && o[b] == y && o[c] == z && o[d] == w
  {}

  lemma {:induction false} BareObjectIs(id: int, user: Fields, text: string, date: string)
    ensures var o := BareObject(id, user, text, date);
      Complete(o) && o.Keys == {"user", "text", "id", "created_at"} && "text" in o &&
      o["id"] == JInt(id) && o["text"] == JString(text) && o["created_at"] == JString(date) &&
      FindObject(o, "user") == Some(JObject(user)) && o["user"] == JObject(user) &&
      FindObject(o, "retweeted_status") == None
  {
    var a, b, c, d, e := "user", "text", "id", "created_at", "retweeted_status";
    assert a[0] == 'u' && b[0] == 't' && c[0] == 'i' && d[0] == 'c' && e[0] == 'r';
    var o := BareObject(id, user, text, date);
    FourKeys(a, JObject(user), b, JString(text), c, JInt(id), d, JString(date));
    assert o == map[a := JObject(user), b := JString(text), c := JInt(id), d := JString(date)];
    hide BareObject;
    assert e !in o.Keys && a in o.Keys && b in o.Keys && c in o.Keys && d in o.Keys;
  }

  lemma BareFields(env: Env, o: Fields)
    requires Complete(o) && o.Keys == {"user", "text", "id", "created_at"}
    ensures TweetOf(env, o, None)
         == Tweet(o["id"].n % 18446744073709551616, UserOf(env, o["user"].fields).id, CrToLf(o["text"].text),
                  env.date(o["created_at"].text), "", None, None, None, None, None)
  {
    OthersAbsent(o);
    hide UserOf, CrToLf, Complete;
  }

  lemma OtherLength(o: Fields, k: string)
    requires o.Keys == {"user", "text", "id", "created_at"} && |k| != 2 && |k| != 4 && |k| != 10
    ensures k !in o
  {
    assert |"user"| == |"text"| == 4 && |"id"| == 2 && |"created_at"| == 10;
    assert k in o <==> k in o.Keys;
  }

  lemma OthersAbsent(o: Fields)
    requires o.Keys == {"user", "text", "id", "created_at"}
    ensures "source" !in o && "in_reply_to_status_id" !in o && "in_reply_to_user_id" !in o
    ensures "retweeted_status_id" !in o && "truncated" !in o && "favorited" !in o
  {
    assert |"source"| == 6 && |"in_reply_to_status_id"| == 21 && |"in_reply_to_user_id"| == 19;
    assert |"retweeted_status_id"| == 19 && |"truncated"| == |"favorited"| == 9;
    OtherLength(o, "source");
    OtherLength(o, "in_reply_to_status_id");
    OtherLength(o, "in_reply_to_user_id");
    OtherLength(o, "retweeted_status_id");
    OtherLength(o, "truncated");
    OtherLength(o, "favorited");
  }

  // ----- Where a stored tweet came from

  /** The text of a string member. */
  function TextAt(l: Json, k: string): string {
    if l.JObject? && k in l.fields && l.fields[k].JString? then l.fields[k].text else ""
  }

  /** `l` is a status of one of the entities, nested or not, and the tweet carries its id, its text and the time of
      its date. */
  ghost predicate CameFrom(env: Env, es: seq<Json>, t: Tweet, l: Json) {
    (exists e | e in es :: e.JObject? && "text" in e.fields && l in Levels(e)) &&
    l.JObject? && Complete(l.fields) && t.id == l.fields["id"].n % 18446744073709551616 &&
    t.text == CrToLf(TextAt(l, "text")) && t.createdAt == env.date(TextAt(l, "created_at"))
  }

  lemma {:induction false} TweetOpFrom(env: Env, ls: seq<Json>, t: Tweet) returns (l: Json)
    requires AllObjects(ls) && AddTweet(t) in TweetOps(env, ls)
    ensures l in ls && l.JObject? && Complete(l.fields) && exists inner :: t == TweetOf(env, l.fields, inner)
  {
    hide TweetOf, Complete, FindInt;
    if AddTweet(t) in TweetOps(env, ls[1..]) {
      l := TweetOpFrom(env, ls[1..], t);
    } else {
      l := ls[0];
      assert AllComplete(ls) && t == TweetAt(env, ls);
    }
  }

  lemma {:induction false} AddedByText(env: Env, e: Json, t: Tweet) returns (l: Json)
    requires AddTweet(t) in EntityOps(env, e)
    ensures e.JObject? && "text" in e.fields && l in Levels(e) && l.JObject? && Complete(l.fields)
    ensures exists inner :: t == TweetOf(env, l.fields, inner)
  {
    assert e.JObject? && "text" in e.fields;
    TweetOpsUsers(env, Levels(e));
    hide UserOps, TweetOps, Levels, Complete, TweetOf;
    l := TweetOpFrom(env, Levels(e), t);
  }

  lemma {:induction false} StoredCameFrom(env: Env, es: seq<Json>, t: Tweet)
    requires t in AfterEntities(env, EMPTY, es).byDate
    ensures HasSource(env, es, t)
  {
    var ops := RunOps(env, es);
    RunReplays(env, EMPTY, es);
    DateIndexFollows(ops);
    StoredWasAdded(ops);
    RunOpsMembers(env, es);
    hide RunOps, AfterEntities, Replay, EntityOps, Levels, Ordered;
    var e :| e in es && AddTweet(t) in EntityOps(env, e);
    var l := AddedByText(env, e, t);
    assert CameFrom(env, es, t, l) by { hide UserOf, CrToLf; }
  }

  predicate NotLater(env: Env, l: Json, m: Json) {
    env.date(TextAt(l, "created_at")) <= env.date(TextAt(m, "created_at"))
  }

  ghost predicate HasSource(env: Env, es: seq<Json>, t: Tweet) { exists l :: CameFrom(env, es, t, l) }

  /** Every tweet came from some status, and these stand in the order of their `created_at` members. */
  ghost predicate InDateOrder(env: Env, es: seq<Json>, ts: seq<Tweet>) {
    (forall t | t in ts :: HasSource(env, es, t)) &&
    forall i, j | 0 <= i < j < |ts| :: SourcesInOrder(env, es, ts[i], ts[j])
  }

  ghost predicate SourcesInOrder(env: Env, es: seq<Json>, s: Tweet, t: Tweet) {
    forall l, m | CameFrom(env, es, s, l) && CameFrom(env, es, t, m) :: NotLater(env, l, m)
  }

  /** After every run of entities the date index stands in the order of the `created_at` members of the statuses its
      tweets came from. */
  lemma {:induction false} DatesFollowCreatedAt(env: Env, es: seq<Json>)
    ensures InDateOrder(env, es, AfterEntities(env, EMPTY, es).byDate)
  {
    var ts := AfterEntities(env, EMPTY, es).byDate;
    RunReplays(env, EMPTY, es);
    DateIndexFollows(RunOps(env, es));
    forall t | t in ts ensures HasSource(env, es, t) { StoredCameFrom(env, es, t); }
    hide RunOps, AfterEntities, Replay;
    OrderedInDateOrder(env, es, ts);
  }

  lemma {:induction false} OrderedInDateOrder(env: Env, es: seq<Json>, ts: seq<Tweet>)
    requires Ordered(ts) && forall t | t in ts :: HasSource(env, es, t)
    ensures InDateOrder(env, es, ts)
  {
    hide Ordered, TextAt, HasSource;
    forall i, j | 0 <= i < j < |ts| ensures SourcesInOrder(env, es, ts[i], ts[j]) { OrderedMeans(ts, i, j); }
  }

  // ----- Tweets of one date

  /** The ids held after the operations, in the order in which they came. */
  function Arrivals(ops: seq<Op>): seq<u64> {
    if ops == [] then []
    else
      var a := Arrivals(ops[..|ops| - 1]);
      match ops[|ops| - 1]
      case AddUser(_) => a
      case AddTweet(t) => if t.id in a then a else a + [t.id]
      case Remove(id) => Dropped(a, id)
  }

  function Dropped(a: seq<u64>, id: u64): seq<u64> {
    if a == [] then [] else (if a[0] == id then [] else [a[0]]) + Dropped(a[1..], id)
  }

  /** `x` occurs with `y` behind it. */
  predicate Precedes(a: seq<u64>, x: u64, y: u64) {
    a != [] && ((a[0] == x && y in a[1..]) || Precedes(a[1..], x, y))
  }

  /** Of tweets with one date the one that came first stands first. */
  predicate InOrderOfArrival(ts: seq<Tweet>, a: seq<u64>) {
    ts == [] ||
    (InOrderOfArrival(ts[1..], a) &&
     forall s | s in ts[1..] && s.createdAt == ts[0].createdAt :: Precedes(a, ts[0].id, s.id))
  }

  lemma {:induction false} DroppedIs(a: seq<u64>, id: u64)
    ensures forall x :: x in Dropped(a, id) <==> x in a && x != id
  {
    if a != [] { DroppedIs(a[1..], id); }
  }

  lemma {:induction false} DroppedPrecedes(a: seq<u64>, id: u64, x: u64, y: u64)
    requires Precedes(a, x, y) && x != id && y != id
    ensures Precedes(Dropped(a, id), x, y)
  {
    var e := Dropped(a[1..], id);
    DroppedIs(a[1..], id);
    assert ([a[0]] + e)[1..] == e && [] + e == e;
    if a[0] != x || y !in a[1..] { DroppedPrecedes(a[1..], id, x, y); }
  }

  lemma {:induction false} LastPrecedes(a: seq<u64>, x: u64, y: u64)
    requires x in a
    ensures Precedes(a + [y], x, y)
  {
    var b := a + [y];
    assert b[0] == a[0] && b[1..] == a[1..] + [y];
    if a[0] != x { LastPrecedes(a[1..], x, y); }
  }

  lemma {:induction false} StillPrecedes(a: seq<u64>, x: u64, y: u64, z: u64)
    requires Precedes(a, x, y)
    ensures Precedes(a + [z], x, y)
  {
    var b := a + [z];
    assert b[0] == a[0] && b[1..] == a[1..] + [z];
    if a[0] != x || y !in a[1..] { StillPrecedes(a[1..], x, y, z); }
  }

  lemma {:induction false} InsertArrives(ts: seq<Tweet>, t: Tweet, a: seq<u64>)
    requires InOrderOfArrival(ts, a) && Ordered(ts) && forall s | s in ts :: s.id in a
    ensures InOrderOfArrival(InsertByDate(ts, t), a + [t.id])
    decreases |ts|
  {
    var r, b := InsertByDate(ts, t), a + [t.id];
    if ts == [] {
      assert r[1..] == [];
    } else {
      var s0, rest := ts[0], ts[1..];
      assert s0 in ts;
      LastPrecedes(a, s0.id, t.id);
      if t.createdAt < s0.createdAt {
        assert r[1..] == ts;
        forall x, y | Precedes(a, x, y) ensures Precedes(b, x, y) { StillPrecedes(a, x, y, t.id); }
        MoreArrivals(ts, a, b);
        assert forall s | s in ts :: s == s0 || s in rest;
      } else {
        InsertArrives(rest, t, a);
        assert r[1..] == InsertByDate(rest, t);
        forall x, y | Precedes(a, x, y) ensures Precedes(b, x, y) { StillPrecedes(a, x, y, t.id); }
        hide Precedes;
        InsertHolds(rest, t);
      }
    }
  }

  lemma {:induction false} InsertHolds(ts: seq<Tweet>, t: Tweet)
    ensures forall s :: s in InsertByDate(ts, t) <==> s == t || s in ts
  {
    var r := InsertByDate(ts, t);
    if ts != [] && t.createdAt >= ts[0].createdAt {
      InsertHolds(ts[1..], t);
      assert r[1..] == InsertByDate(ts[1..], t);
      assert forall s :: s in ts <==> s == ts[0] || s in ts[1..];
    }
  }

  lemma {:induction false} MoreArrivals(ts: seq<Tweet>, a: seq<u64>, b: seq<u64>)
    requires InOrderOfArrival(ts, a) && forall x, y | Precedes(a, x, y) :: Precedes(b, x, y)
    ensures InOrderOfArrival(ts, b)
  {
    if ts != [] { MoreArrivals(ts[1..], a, b); }
  }

  lemma {:induction false} RemovalArrives(ts: seq<Tweet>, id: u64, a: seq<u64>)
    requires InOrderOfArrival(ts, a)
    ensures InOrderOfArrival(WithoutId(ts, id), Dropped(a, id))
    ensures forall s :: s in WithoutId(ts, id) <==> s in ts && s.id != id
  {
    if ts != [] {
      var r, q := WithoutId(ts, id), WithoutId(ts[1..], id);
      RemovalArrives(ts[1..], id, a);
      assert forall s :: s in ts <==> s == ts[0] || s in ts[1..];
      if ts[0].id == id {
        assert r == q;
      } else {
        assert r == [ts[0]] + q && r[1..] == q;
        forall s | s in q && s.createdAt == ts[0].createdAt ensures Precedes(Dropped(a, id), ts[0].id, s.id) {
          DroppedPrecedes(a, id, ts[0].id, s.id);
        }
      }
    }
  }

  lemma {:induction false} ArrivalsHold(ops: seq<Op>)
    ensures forall id: u64 :: id in Arrivals(ops) <==> id in Replay(EMPTY, ops).tweets
    ensures InOrderOfArrival(Replay(EMPTY, ops).byDate, Arrivals(ops))
  {
    if ops != [] {
      var front, last := ops[..|ops| - 1], ops[|ops| - 1];
      var st, a := Replay(EMPTY, front), Arrivals(front);
      ArrivalsHold(front);
      DateIndexFollows(front);
      assert Replay(EMPTY, ops) == ApplyOp(st, last);
      hide Replay, InOrderOfArrival, InsertByDate, WithoutId, NameTaken, Ordered;
      match last
      case AddUser(u) =>
      case AddTweet(t) => if t.id !in st.tweets { InsertArrives(st.byDate, t, a); }
      case Remove(id) =>
        RemovalArrives(st.byDate, id, a);
        DroppedIs(a, id);
    }
  }

  /** After every run, tweets of one date stand in the date index in the order in which they came. */
  lemma {:induction false} EqualDatesByArrival(ops: seq<Op>, i: nat, j: nat)
    requires var ts := Replay(EMPTY, ops).byDate; i < j < |ts| && ts[i].createdAt == ts[j].createdAt
    ensures var ts := Replay(EMPTY, ops).byDate; Precedes(Arrivals(ops), ts[i].id, ts[j].id)
  {
    ArrivalsHold(ops);
    PairInOrder(Replay(EMPTY, ops).byDate, Arrivals(ops), i, j);
  }

  lemma {:induction false} PairInOrder(ts: seq<Tweet>, a: seq<u64>, i: nat, j: nat)
    requires InOrderOfArrival(ts, a) && i < j < |ts| && ts[i].createdAt == ts[j].createdAt
    ensures Precedes(a, ts[i].id, ts[j].id)
  {
    if i > 0 {
      PairInOrder(ts[1..], a, i - 1, j - 1);
    } else {
      assert ts[j] == ts[1..][j - 1];
    }
  }

  // ----- Delete entities and the rest

  /** A delete entity with any further members at each of its levels. */
  function DeleteJson(n: int, top: Fields, mid: Fields, low: Fields): Json {
    JObject(top["delete" := JObject(mid["status" := JObject(low["id" := JInt(n)])])])
  }

  /** It removes the tweet of that id from both indices, leaves every other tweet in its place and every user, and does
      not throw. */
  lemma {:induction false} DeleteRemoves(env: Env, st: State, n: int, top: Fields, mid: Fields, low: Fields)
    requires "text" !in top
    ensures var id: u64 := n % 18446744073709551616;
      var (end, outcome) := ProcessEntity(env, st, DeleteJson(n, top, mid, low));
      !outcome.Thrown? && !outcome.Ignored? && end.users == st.users && end.tweets == st.tweets - {id} &&
      end.byDate == WithoutId(st.byDate, id) && (forall t :: t in end.byDate <==> t in st.byDate && t.id != id)
  {
    var j := DeleteJson(n, top, mid, low);
    assert "text" !in j.fields by { assert "text"[0] == 't' && "delete"[0] == 'd'; }
    assert DeletedId(j.fields) == Some(n % 18446744073709551616);
    hide WithoutId, DeletedId;
    WithoutIdIs(st.byDate, n % 18446744073709551616);
  }

  lemma {:induction false} WithoutIdIs(ts: seq<Tweet>, id: u64)
    ensures forall t :: t in WithoutId(ts, id) <==> t in ts && t.id != id
  {
    if ts != [] {
      WithoutIdIs(ts[1..], id);
      assert forall t :: t in ts <==> t == ts[0] || t in ts[1..];
    }
  }

  /** It throws if and only if one of the three levels is absent or of another type, and then changes nothing. */
  lemma {:induction false} DeleteThrowsExactly(env: Env, st: State, o: Fields)
    requires "text" !in o && "delete" in o
    ensures var (end, outcome) := ProcessEntity(env, st, JObject(o));
      (outcome.Thrown? <==>
         !(o["delete"].JObject? && var d := o["delete"].fields;
           "status" in d && d["status"].JObject? && var s := d["status"].fields;
           "id" in s && s["id"].JInt?)) &&
      (outcome.Thrown? ==> end == st)
  {
    hide WithoutId;
  }

  /** An object with neither a text nor a delete member is passed over; anything but an object throws; neither changes
      the stores. */
  lemma {:induction false} OthersChangeNothing(env: Env, st: State, t: Json)
    requires t.JObject? ==> "text" !in t.fields && "delete" !in t.fields
    ensures ProcessEntity(env, st, t) == (st, if t.JObject? then Ignored else Thrown)
  {}

  lemma DeletePasses(env: Env, o: Fields, v: Json)
    ensures var o' := o["delete" := v];
      FindObject(o', "user") == FindObject(o, "user") && ("text" in o' <==> "text" in o) &&
      FindObject(o', "retweeted_status") == FindObject(o, "retweeted_status") &&
      (Complete(o') <==> Complete(o)) &&
      (Complete(o) ==> forall inner :: TweetOf(env, o', inner) == TweetOf(env, o, inner))
  {
    DeleteIsNoKey(o, v);
    hide UserOf, CrToLf;
  }

  /** With a text an entity is a tweet, whatever its delete member says. */
  lemma {:induction false} TextGoesFirst(env: Env, st: State, o: Fields, v: Json)
    requires "text" in o
    ensures ProcessEntity(env, st, JObject(o["delete" := v])) == ProcessEntity(env, st, JObject(o))
  {
    DeletePasses(env, o, v);
    hide Complete, TweetOf, UserOf, InsertUser, InsertTweet, FindObject;
    assert Construct(env, st, JObject(o["delete" := v])) == Construct(env, st, JObject(o));
    hide Construct;
  }

  const TWEET_KEYS: set<string> :=
    {"user", "text", "id", "created_at", "source", "in_reply_to_status_id", "in_reply_to_user_id",
     "retweeted_status_id", "retweeted_status", "truncated", "favorited"}

  lemma DeleteIsNoKey(o: Fields, v: Json)
    ensures forall k | k in TWEET_KEYS :: k in o["delete" := v] <==> k in o
    ensures forall k | k in TWEET_KEYS && k in o :: o["delete" := v][k] == o[k]
  {
    assert "delete"[0] == 'd' && "user"[0] == 'u' && "text"[0] == 't' && "id"[0] == 'i' && "created_at"[0] == 'c';
    assert "source"[0] == 's' && "in_reply_to_status_id"[0] == 'i' && "in_reply_to_user_id"[0] == 'i';
    assert "retweeted_status_id"[0] == "retweeted_status"[0] == 'r' && "truncated"[0] == 't' && "favorited"[0] == 'f';
  }
}
