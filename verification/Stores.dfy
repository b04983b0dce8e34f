/**
 The tweet and user stores: two containers with unique indices that silently reject duplicates, the
 constructors that insert while they build, and the handling of one entity of the stream.
 */
module Stores {
  import opened Text
  import opened Json

  type u64 = x: int | 0 <= x < TWO64

  type Fields = map<string, Json>

  /** What the model does not compute: the value an uninitialised user id happens to have, and the time a
      date text stands for. */
  datatype Env = Env(junk: Fields -> u64, date: string -> int)

  /** The conversion of a signed 64-bit number to an unsigned one. */
  function ToU64(n: int): u64 { n % TWO64 }

  // ----- `set_if_found`: absent, null and differently typed values are not found

  function FindString(o: Fields, k: string): Option<string> {
    if k in o && o[k].JString? then Some(o[k].text) else None
  }

  function FindInt(o: Fields, k: string): Option<int> {
    if k in o && o[k].JInt? then Some(o[k].n) else None
  }

  function FindBool(o: Fields, k: string): Option<bool> {
    if k in o && o[k].JBool? then Some(o[k].b) else None
  }

  function FindObject(o: Fields, k: string): (r: Option<Json>)
    ensures r.Some? ==> k in o && r.value == o[k] && r.value.JObject?
  {
    if k in o && o[k].JObject? then Some(o[k]) else None
  }

  /** A user: identifier and name are the two unique indices; the remaining profile fields are kept as
      the object they are set from. */
  datatype User = User(id: u64, screenName: string, profile: Fields)

  function UserOf(env: Env, o: Fields): User {
    var id := FindInt(o, "id");
    var name := FindString(o, "screen_name");
    User(if id.Some? then ToU64(id.value) else env.junk(o), if name.Some? then name.value else "", o)
  }

  datatype Tweet = Tweet(
    id: u64, userId: u64, text: string, createdAt: int, source: string,
    inReplyToStatus: Option<u64>, inReplyToUser: Option<u64>, retweetedStatus: Option<u64>,
    truncated: Option<bool>, favorited: Option<bool>)

  function OptionalId(v: Option<int>): Option<u64> {
    if v.None? then None else Some(ToU64(v.value))
  }

  /** The four properties without which the constructor throws at its end. */
  predicate Complete(o: Fields) {
    FindObject(o, "user").Some? && FindString(o, "text").Some? && FindInt(o, "id").Some? &&
    FindString(o, "created_at").Some?
  }

  /** The object built from complete fields; `inner` is the id of the nested retweeted status. An explicit
      `retweeted_status_id` overrides it. */
  function TweetOf(env: Env, o: Fields, inner: Option<u64>): Tweet
    requires Complete(o)
  {
    var source := FindString(o, "source");
    var explicit := FindInt(o, "retweeted_status_id");
    Tweet(ToU64(FindInt(o, "id").value), UserOf(env, FindObject(o, "user").value.fields).id,
          CrToLf(FindString(o, "text").value), env.date(FindString(o, "created_at").value),
          if source.Some? then source.value else "",
          OptionalId(FindInt(o, "in_reply_to_status_id")), OptionalId(FindInt(o, "in_reply_to_user_id")),
          if explicit.Some? then OptionalId(explicit) else inner,
          FindBool(o, "truncated"), FindBool(o, "favorited"))
  }

  // ----- The two containers

  /** Users by id, tweets by id, and the tweets in the order of the date index. */
  datatype State = State(users: map<u64, User>, tweets: map<u64, Tweet>, byDate: seq<Tweet>)

  const EMPTY: State := State(map[], map[], [])

  predicate NameTaken(users: map<u64, User>, name: string) {
    exists id | id in users :: users[id].screenName == name
  }

  /** An insertion that meets a taken id or a taken name does nothing. */
  function InsertUser(st: State, u: User): State {
    if u.id in st.users || NameTaken(st.users, u.screenName) then st else st.(users := st.users[u.id := u])
  }

  /** Behind all tweets of the same or an earlier date. */
  function InsertByDate(ts: seq<Tweet>, t: Tweet): seq<Tweet> {
    if ts == [] || t.createdAt < ts[0].createdAt then [t] + ts else [ts[0]] + InsertByDate(ts[1..], t)
  }

  function InsertTweet(st: State, t: Tweet): State {
    if t.id in st.tweets then st else st.(tweets := st.tweets[t.id := t], byDate := InsertByDate(st.byDate, t))
  }

  function WithoutId(ts: seq<Tweet>, id: u64): seq<Tweet> {
    if ts == [] then [] else (if ts[0].id == id then [] else [ts[0]]) + WithoutId(ts[1..], id)
  }

  function EraseTweet(st: State, id: u64): State {
    st.(tweets := st.tweets - {id}, byDate := WithoutId(st.byDate, id))
  }

  // ----- Construction with its insertions

  /** `tweet_object(o)`: the user is inserted first, then the retweeted status is built and inserted, and
      only then the required properties are looked at. `None` is a throw; what was inserted stays. */
  function Construct(env: Env, st: State, j: Json): (State, Option<Tweet>)
    requires j.JObject?
    decreases j
  {
    var o := j.fields;
    var user, retweeted := FindObject(o, "user"), FindObject(o, "retweeted_status");
    var st1 := if user.Some? then InsertUser(st, UserOf(env, user.value.fields)) else st;
    if retweeted.None? then
      (st1, if Complete(o) then Some(TweetOf(env, o, None)) else None)
    else
      var (st2, inner) := Construct(env, st1, retweeted.value);
      if inner.None? then (st2, None)
      else
        (InsertTweet(st2, inner.value),
         if Complete(o) then Some(TweetOf(env, o, Some(inner.value.id))) else None)
  }

  function InsertNewTweet(env: Env, st: State, j: Json): (State, Option<u64>)
    requires j.JObject?
  {
    var (st1, t) := Construct(env, st, j);
    if t.None? then (st1, None) else (InsertTweet(st1, t.value), Some(t.value.id))
  }

  /** The id a delete entity names; `None` where a `boost::get` on the way throws. */
  function DeletedId(o: Fields): Option<u64> {
    var d := FindObject(o, "delete");
    if d.None? then None
    else
      var s := FindObject(d.value.fields, "status");
      if s.None? then None else OptionalId(FindInt(s.value.fields, "id"))
  }

  /** How handling an entity ended. `Undefined`: printing dereferenced a user lookup that found nothing. */
  datatype Outcome = Printed | Ignored | Thrown | Undefined

  function PrintOutcome(st: State, id: u64): Outcome {
    if id in st.tweets && st.tweets[id].userId !in st.users then Undefined else Printed
  }

  /** `process_single_entity`. */
  function ProcessEntity(env: Env, st: State, t: Json): (State, Outcome) {
    if !t.JObject? then (st, Thrown)
    else if "text" in t.fields then
      var (st1, id) := InsertNewTweet(env, st, t);
      if id.None? then (st1, Thrown) else (st1, PrintOutcome(st1, id.value))
    else if "delete" in t.fields then
      var id := DeletedId(t.fields);
      if id.None? then (st, Thrown) else (EraseTweet(st, id.value), PrintOutcome(st, id.value))
    else (st, Ignored)
  }

  // ----- The global object

  class Store {
    var users: map<u64, User>
    var tweets: map<u64, Tweet>
    var byDate: seq<Tweet>

    ghost function View(): State
      reads this
    {
      State(users, tweets, byDate)
    }

    constructor ()
      ensures View() == EMPTY
    {
      users, tweets, byDate := map[], map[], [];
    }

    method AddUser(u: User)
      modifies this`users
      ensures View() == InsertUser(old(View()), u)
    {
      if u.id !in users && !NameTaken(users, u.screenName) {
        users := users[u.id := u];
      }
    }

    method AddTweet(t: Tweet)
      modifies this`tweets, this`byDate
      ensures View() == InsertTweet(old(View()), t)
    {
      if t.id !in tweets {
        tweets := tweets[t.id := t];
        byDate := InsertByDate(byDate, t);
      }
    }

    method RemoveTweet(id: u64)
      modifies this`tweets, this`byDate
      ensures View() == EraseTweet(old(View()), id)
    {
      tweets := tweets - {id};
      byDate := WithoutId(byDate, id);
    }

    /** The constructor of `tweet_object`, inserting as it goes. */
    method TweetObject(env: Env, j: Json) returns (r: Option<Tweet>)
      requires j.JObject?
      modifies this
      ensures (View(), r) == Construct(env, old(View()), j)
      decreases j
    {
      var o := j.fields;
      var b := true;
      var retweetedId := None;
      var user := FindObject(o, "user");
      if user.Some? {
        AddUser(UserOf(env, user.value.fields));
      } else {
        b := false;
      }
      var retweeted := FindObject(o, "retweeted_status");
      if retweeted.Some? {
        var inner := TweetObject(env, retweeted.value);
        if inner.None? {
          return None;
        }
        AddTweet(inner.value);
        retweetedId := Some(inner.value.id);
      }
      b := b && FindString(o, "text").Some?;
      b := b && FindInt(o, "id").Some?;
      b := b && FindString(o, "created_at").Some?;
      if !b {
        return None;
      }
      r := Some(TweetOf(env, o, retweetedId));
    }

    method InsertNew(env: Env, j: Json) returns (id: Option<u64>)
      requires j.JObject?
      modifies this
      ensures (View(), id) == InsertNewTweet(env, old(View()), j)
    {
      var t := TweetObject(env, j);
      if t.None? {
        return None;
      }
      AddTweet(t.value);
      id := Some(t.value.id);
    }

    method Process(env: Env, t: Json) returns (outcome: Outcome)
      modifies this
      ensures (View(), outcome) == ProcessEntity(env, old(View()), t)
    {
      if !t.JObject? {
        return Thrown;
      }
      if "text" in t.fields {
        var id := InsertNew(env, t);
        if id.None? {
          return Thrown;
        }
        outcome := PrintOutcome(State(users, tweets, byDate), id.value);
      } else if "delete" in t.fields {
        var id := DeletedId(t.fields);
        if id.None? {
          return Thrown;
        }
        outcome := PrintOutcome(State(users, tweets, byDate), id.value);
        RemoveTweet(id.value);
      } else {
        outcome := Ignored;
      }
    }
  }
}
