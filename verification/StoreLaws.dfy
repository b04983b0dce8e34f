/**
 What every run of the stores keeps: the first tweet per id since its last removal, the first user per
 id and per name, a date index that is the id index in date order, user lookups that find someone, and
 independence of order where the entities determine each other.
 */
module StoreLaws {
  import opened Text
  import opened Json
  import opened Stores
  import opened StoreRuns

  // ----- Tweets: the first one since the last removal

  /** The operations after the last removal of `id`. */
  function SinceRemoval(ops: seq<Op>, id: u64): seq<Op> {
    if ops == [] || ops[|ops| - 1] == Remove(id) then []
    else SinceRemoval(ops[..|ops| - 1], id) + [ops[|ops| - 1]]
  }

  function FirstTweet(ops: seq<Op>, id: u64): Option<Tweet> {
    if ops == [] then None
    else if ops[0].AddTweet? && ops[0].t.id == id then Some(ops[0].t)
    else FirstTweet(ops[1..], id)
  }

  lemma {:induction false} FirstTweetAppend(ops: seq<Op>, op: Op, id: u64)
    ensures FirstTweet(ops + [op], id)
         == if FirstTweet(ops, id).Some? then FirstTweet(ops, id)
            else if op.AddTweet? && op.t.id == id then Some(op.t) else None
  {
    if ops == [] {
      assert ops + [op] == [op] && [op][1..] == [];
    } else {
      FirstTweetAppend(ops[1..], op, id);
      assert (ops + [op])[1..] == ops[1..] + [op];
    }
  }

  /** What an id holds after the operations: what it held before, unless that was removed or there was nothing;
      then the first tweet added under it since its last removal. */
  function Held(st: State, ops: seq<Op>, id: u64): Option<Tweet> {
    if id in st.tweets && Remove(id) !in ops then Some(st.tweets[id]) else FirstTweet(SinceRemoval(ops, id), id)
  }

  /** One operation more, on what an id holds. */
  function HeldNext(held: Option<Tweet>, op: Op, id: u64): Option<Tweet> {
    if op == Remove(id) then None
    else if held.Some? then held
    else if op.AddTweet? && op.t.id == id then Some(op.t) else None
  }

  lemma {:induction false} HeldAppend(st: State, front: seq<Op>, op: Op, id: u64)
    ensures Held(st, front + [op], id) == HeldNext(Held(st, front, id), op, id)
  {
    FirstTweetAppend(SinceRemoval(front, id), op, id);
    assert (front + [op])[..|front|] == front;
    hide FirstTweet;
    assert SinceRemoval(front + [op], id) == if op == Remove(id) then [] else SinceRemoval(front, id) + [op];
    hide SinceRemoval;
    assert FirstTweet([], id) == None by { NoTweet(id); }
  }

  lemma NoTweet(id: u64)
    ensures FirstTweet([], id) == None
  {}

  lemma ApplyFinds(st: State, op: Op, id: u64)
    ensures Find(ApplyOp(st, op).tweets, id) == HeldNext(Find(st.tweets, id), op, id)
  {}

  lemma {:induction false} FirstTweetStays(st: State, ops: seq<Op>, id: u64)
    ensures Find(Replay(st, ops).tweets, id) == Held(st, ops, id)
  {
    if ops == [] {
      NoTweet(id);
    } else {
      var front, op := ops[..|ops| - 1], ops[|ops| - 1];
      FirstTweetStays(st, front, id);
      assert ops == front + [op];
      assert Replay(st, ops) == ApplyOp(Replay(st, front), op);
      hide Held, HeldNext, Replay, ApplyOp, Find;
      HeldAppend(st, front, op, id);
      ApplyFinds(Replay(st, front), op, id);
    }
  }

  // ----- Users: the first one per id and per name

  /** A user would be rejected: its id or its name is taken. */
  predicate Taken(st: State, u: User) { u.id in st.users || NameTaken(st.users, u.screenName) }

  predicate UsersOk(users: map<u64, User>) {
    (forall id | id in users :: users[id].id == id) &&
    forall a, b | a in users && b in users && users[a].screenName == users[b].screenName :: a == b
  }

  lemma {:induction false} UsersStay(st: State, ops: seq<Op>)
    requires UsersOk(st.users)
    ensures UsersOk(Replay(st, ops).users)
    ensures forall id | id in st.users :: Find(Replay(st, ops).users, id) == Some(st.users[id])
  {
    if ops != [] { UsersStay(st, ops[..|ops| - 1]); }
  }

  /** At the place of an addition the user is stored for good if neither its id nor its name is taken,
      and otherwise the one that took it stays: in the end, ids and names are unique and the first come
      is the one that is found. */
  lemma FirstUserStays(before: seq<Op>, u: User, after: seq<Op>)
    ensures var st, end := Replay(EMPTY, before), Replay(EMPTY, before + [AddUser(u)] + after);
      UsersOk(end.users) &&
      (!Taken(st, u) ==> Find(end.users, u.id) == Some(u)) &&
      (forall id | id in st.users :: Find(end.users, id) == Some(st.users[id])) &&
      exists id :: id in end.users && (id == u.id || end.users[id].screenName == u.screenName)
  {
    var st := Replay(EMPTY, before);
    var mid := InsertUser(st, u);
    ReplayAppend(EMPTY, before, [AddUser(u)]);
    ReplayOne(st, AddUser(u));
    ReplayAppend(EMPTY, before + [AddUser(u)], after);
    hide Replay;
    UsersStay(EMPTY, before);
    UsersStay(EMPTY, before + [AddUser(u)]);
    UsersStay(mid, after);
    if !Taken(st, u) {
      assert u.id in mid.users;
    } else if u.id in st.users {
      assert u.id in mid.users;
    } else {
      var id :| id in st.users && st.users[id].screenName == u.screenName;
      assert id in mid.users && Find(Replay(mid, after).users, id) == Some(st.users[id]);
    }
  }

  /** Everything stored was added by some operation. */
  lemma {:induction false} StoredWasAdded(ops: seq<Op>)
    ensures forall id | id in Replay(EMPTY, ops).users ::
              var u := Replay(EMPTY, ops).users[id]; u.id == id && AddUser(u) in ops
    ensures forall id | id in Replay(EMPTY, ops).tweets ::
              var t := Replay(EMPTY, ops).tweets[id]; t.id == id && AddTweet(t) in ops
  {
    if ops != [] { StoredWasAdded(ops[..|ops| - 1]); }
  }

  // ----- The date index

  /** In date order, and no id twice. */
  predicate Ordered(ts: seq<Tweet>) {
    ts == [] ||
    (Ordered(ts[1..]) && forall s | s in ts[1..] :: ts[0].createdAt <= s.createdAt && ts[0].id != s.id)
  }

  lemma {:induction false} OrderedMeans(ts: seq<Tweet>, i: nat, j: nat)
    requires Ordered(ts) && i < j < |ts|
    ensures ts[i].createdAt <= ts[j].createdAt && ts[i].id != ts[j].id
  {
    if i > 0 {
      OrderedMeans(ts[1..], i - 1, j - 1);
    } else {
      assert ts[j] == ts[1..][j - 1];
    }
  }

  /** The date index holds exactly the stored tweets, each once, in date order. */
  ghost predicate DateIndexOk(st: State) {
    Ordered(st.byDate) &&
    (forall t :: t in st.byDate <==> t.id in st.tweets && st.tweets[t.id] == t) &&
    forall id | id in st.tweets :: st.tweets[id].id == id
  }

  lemma {:induction false} InsertedByDate(ts: seq<Tweet>, t: Tweet)
    requires Ordered(ts) && forall s | s in ts :: s.id != t.id
    ensures var r := InsertByDate(ts, t); Ordered(r) && forall s :: s in r <==> s == t || s in ts
  {
    var r := InsertByDate(ts, t);
    if ts == [] || t.createdAt < ts[0].createdAt {
      assert r[1..] == ts;
      assert forall s | s in ts :: s == ts[0] || s in ts[1..];
    } else {
      InsertedByDate(ts[1..], t);
      assert r[1..] == InsertByDate(ts[1..], t);
      assert forall s :: s in ts <==> s == ts[0] || s in ts[1..];
    }
  }

  lemma {:induction false} RemovedById(ts: seq<Tweet>, id: u64)
    requires Ordered(ts)
    ensures var r := WithoutId(ts, id); Ordered(r) && forall s :: s in r <==> s in ts && s.id != id
  {
    if ts != [] {
      RemovedById(ts[1..], id);
      var r, q := WithoutId(ts, id), WithoutId(ts[1..], id);
      assert forall s :: s in ts <==> s == ts[0] || s in ts[1..];
      assert ts[0].id != id ==> r == [ts[0]] + q && r[1..] == q;
      assert ts[0].id == id ==> r == q;
    }
  }

  lemma OpKeepsDates(st: State, op: Op)
    requires DateIndexOk(st)
    ensures DateIndexOk(ApplyOp(st, op))
  {
    hide InsertByDate, WithoutId, Ordered, NameTaken;
    match op
    case AddUser(u) =>
    case AddTweet(t) => if t.id !in st.tweets { InsertedByDate(st.byDate, t); }
    case Remove(id) => RemovedById(st.byDate, id);
  }

  /** After every run the date index is the id index in date order. */
  lemma {:induction false} DateIndexFollows(ops: seq<Op>)
    ensures DateIndexOk(Replay(EMPTY, ops))
  {
    if ops != [] {
      DateIndexFollows(ops[..|ops| - 1]);
      hide DateIndexOk;
      OpKeepsDates(Replay(EMPTY, ops[..|ops| - 1]), ops[|ops| - 1]);
    }
  }

  // ----- User lookups

  /** No name is given to two ids. */
  ghost predicate NamesIdentifyIds(ops: seq<Op>) {
    forall u, v | AddUser(u) in ops && AddUser(v) in ops && u.screenName == v.screenName :: u.id == v.id
  }

  predicate LookupsFind(st: State) { forall id | id in st.tweets :: st.tweets[id].userId in st.users }

  /** Every tweet comes after the addition of its user. */
  predicate UsersComeFirst(ops: seq<Op>) {
    forall i | 0 <= i < |ops| && ops[i].AddTweet? ::
      exists j | 0 <= j < i :: ops[j].AddUser? && ops[j].u.id == ops[i].t.userId
  }

  lemma {:induction false} AddedUsersAreKnown(ops: seq<Op>)
    requires NamesIdentifyIds(ops)
    ensures forall op | op in ops && op.AddUser? :: op.u.id in Replay(EMPTY, ops).users
  {
    if ops != [] {
      var front, last := ops[..|ops| - 1], ops[|ops| - 1];
      assert forall op | op in front :: op in ops;
      AddedUsersAreKnown(front);
      StoredWasAdded(front);
      var st := Replay(EMPTY, front);
      forall op | op in ops && op.AddUser? ensures op.u.id in Replay(EMPTY, ops).users {
        if op == last && NameTaken(st.users, op.u.screenName) {
          var id :| id in st.users && st.users[id].screenName == op.u.screenName;
          assert AddUser(st.users[id]) in ops && AddUser(op.u) in ops;
        }
        assert op == last || op in front;
      }
    }
  }

  lemma LookupsFollow(ops: seq<Op>)
    requires NamesIdentifyIds(ops) && UsersComeFirst(ops)
    ensures LookupsFind(Replay(EMPTY, ops))
  {
    AddedUsersAreKnown(ops);
    StoredWasAdded(ops);
    var st := Replay(EMPTY, ops);
    forall id | id in st.tweets ensures st.tweets[id].userId in st.users {
      var i :| 0 <= i < |ops| && ops[i] == AddTweet(st.tweets[id]);
      var j :| 0 <= j < i && ops[j].AddUser? && ops[j].u.id == ops[i].t.userId;
      assert ops[j] in ops;
    }
  }

  lemma {:induction false} UserOpAt(env: Env, ls: seq<Json>, i: nat)
    requires AllObjects(ls) && i < |ls| && FindObject(ls[i].fields, "user").Some?
    ensures AddUser(UserOf(env, FindObject(ls[i].fields, "user").value.fields)) in UserOps(env, ls)
  {
    if i > 0 {
      assert ls[1..][i - 1] == ls[i];
      UserOpAt(env, ls[1..], i - 1);
    }
  }

  lemma {:induction false} TweetOpsUsers(env: Env, ls: seq<Json>)
    requires AllObjects(ls)
    ensures forall op | op in UserOps(env, ls) :: op.AddUser?
    ensures forall op | op in TweetOps(env, ls) :: op.AddTweet? &&
              exists op' | op' in UserOps(env, ls) :: op'.AddUser? && op'.u.id == op.t.userId
  {
    if ls != [] {
      TweetOpsUsers(env, ls[1..]);
      hide UserOf, TweetAt;
      if AllComplete(ls) {
        UserOpAt(env, ls, 0);
        TweetAtUser(env, ls);
      }
      assert forall op | op in UserOps(env, ls[1..]) :: op in UserOps(env, ls);
    }
  }

  lemma TweetAtUser(env: Env, ls: seq<Json>)
    requires AllObjects(ls) && ls != [] && AllComplete(ls)
    ensures FindObject(ls[0].fields, "user").Some? &&
            TweetAt(env, ls).userId == UserOf(env, FindObject(ls[0].fields, "user").value.fields).id
  {
    assert Complete(ls[0].fields);
  }

  lemma EntityUsersComeFirst(env: Env, t: Json)
    ensures UsersComeFirst(EntityOps(env, t))
  {
    if t.JObject? && "text" in t.fields {
      var ls := Levels(t);
      var us, ts := UserOps(env, ls), TweetOps(env, ls);
      TweetOpsUsers(env, ls);
      hide UserOps, TweetOps;
      var ops := us + ts;
      forall i | 0 <= i < |ops| && ops[i].AddTweet?
        ensures exists j | 0 <= j < i :: ops[j].AddUser? && ops[j].u.id == ops[i].t.userId
      {
        assert forall k | 0 <= k < |us| :: ops[k] == us[k] && us[k] in us && us[k].AddUser?;
        assert i >= |us|;
        assert ops[i] == ts[i - |us|] && ts[i - |us|] in ts;
        var j :| 0 <= j < |us| && us[j].AddUser? && us[j].u.id == ops[i].t.userId;
        assert ops[j] == us[j];
      }
    }
  }

  lemma {:induction false} RunUsersComeFirst(env: Env, es: seq<Json>)
    ensures UsersComeFirst(RunOps(env, es))
  {
    if es != [] {
      var a, b := RunOps(env, es[..|es| - 1]), EntityOps(env, es[|es| - 1]);
      RunUsersComeFirst(env, es[..|es| - 1]);
      EntityUsersComeFirst(env, es[|es| - 1]);
      hide EntityOps, RunOps;
      AppendUsersFirst(a, b);
    }
  }

  lemma AppendUsersFirst(a: seq<Op>, b: seq<Op>)
    requires UsersComeFirst(a) && UsersComeFirst(b)
    ensures UsersComeFirst(a + b)
  {
    var ops := a + b;
    forall i | 0 <= i < |ops| && ops[i].AddTweet?
      ensures exists j | 0 <= j < i :: ops[j].AddUser? && ops[j].u.id == ops[i].t.userId
    {
      if i < |a| {
        var j :| 0 <= j < i && a[j].AddUser? && a[j].u.id == a[i].t.userId;
        assert ops[j] == a[j];
      } else {
        var j :| 0 <= j < i - |a| && b[j].AddUser? && b[j].u.id == b[i - |a|].t.userId;
        assert ops[j + |a|] == b[j];
      }
    }
  }

  lemma {:induction false} RunOpsMembers(env: Env, es: seq<Json>)
    ensures forall op :: op in RunOps(env, es) <==> exists t | t in es :: op in EntityOps(env, t)
  {
    if es != [] {
      var front, last := es[..|es| - 1], es[|es| - 1];
      RunOpsMembers(env, front);
      assert forall t :: t in es <==> t == last || t in front;
      hide EntityOps;
    }
  }

  /** Of some of the entities the names are still no trouble. */
  lemma {:induction false} FewerNames(env: Env, some: seq<Json>, all: seq<Json>)
    requires NamesIdentifyIds(RunOps(env, all)) && forall t | t in some :: t in all
    ensures NamesIdentifyIds(RunOps(env, some))
  {
    RunOpsMembers(env, all);
    RunOpsMembers(env, some);
    hide RunOps, EntityOps;
    assert forall op | op in RunOps(env, some) :: op in RunOps(env, all);
  }

  lemma {:induction false} AllFound(env: Env, es: seq<Json>)
    requires NamesIdentifyIds(RunOps(env, es))
    ensures LookupsFind(AfterEntities(env, EMPTY, es))
  {
    RunReplays(env, EMPTY, es);
    RunUsersComeFirst(env, es);
    hide RunOps, UsersComeFirst, NamesIdentifyIds, Replay, LookupsFind;
    LookupsFollow(RunOps(env, es));
  }

  /** When no user object gives one name to two ids, then after every entity of every run each stored tweet's
      user is found, and no printing of an entity ever fails to find one. */
  lemma {:induction false} UsersAreFound(env: Env, es: seq<Json>, t: Json)
    requires NamesIdentifyIds(RunOps(env, es + [t]))
    ensures LookupsFind(AfterEntities(env, EMPTY, es))
    ensures LookupsFind(AfterEntities(env, EMPTY, es + [t]))
    ensures ProcessEntity(env, AfterEntities(env, EMPTY, es), t).1 != Undefined
  {
    FewerNames(env, es, es + [t]);
    hide RunOps, NamesIdentifyIds, ProcessEntity, AfterEntities, LookupsFind;
    AllFound(env, es);
    AllFound(env, es + [t]);
    AfterOneMore(env, EMPTY, es, t);
    OutcomeDefined(env, AfterEntities(env, EMPTY, es), t);
  }

  /** So no entity of such a run ends undefined. */
  lemma {:induction false} AllDefined(env: Env, es: seq<Json>, k: nat)
    requires NamesIdentifyIds(RunOps(env, es)) && k < |es|
    ensures ProcessEntity(env, AfterEntities(env, EMPTY, es[..k]), es[k]).1 != Undefined
  {
    hide RunOps, NamesIdentifyIds, ProcessEntity, AfterEntities;
    FewerNames(env, es[..k] + [es[k]], es);
    UsersAreFound(env, es[..k], es[k]);
  }

  lemma OutcomeDefined(env: Env, st: State, t: Json)
    requires LookupsFind(st) && LookupsFind(ProcessEntity(env, st, t).0)
    ensures ProcessEntity(env, st, t).1 != Undefined
  {
    hide InsertNewTweet, EraseTweet;
  }

  lemma AfterNothing(env: Env, st: State)
    ensures AfterEntities(env, st, []) == st
  {}

  // ----- Exactly when a lookup fails

  /** Operation `i` adds a user of this id, and neither its id nor its name is taken at that point. */
  predicate Accepted(st: State, ops: seq<Op>, i: nat, id: u64) {
    i < |ops| && ops[i].AddUser? && ops[i].u.id == id && !Taken(Replay(st, ops[..i]), ops[i].u)
  }

  predicate Known(st: State, ops: seq<Op>, id: u64) {
    id in st.users || exists i | 0 <= i < |ops| :: Accepted(st, ops, i, id)
  }

  /** An id is found among the users if and only if it was there or some operation that added it was accepted. */
  lemma {:induction false} KnownExactly(st: State, ops: seq<Op>, id: u64)
    ensures id in Replay(st, ops).users <==> Known(st, ops, id)
  {
    if ops != [] {
      var front, last := ops[..|ops| - 1], ops[|ops| - 1];
      var n := |front|;
      KnownExactly(st, front, id);
      assert ops[..n] == front;
      assert forall i | 0 <= i < n :: ops[i] == front[i] && ops[..i] == front[..i];
      hide Replay, Taken;
      assert forall i | 0 <= i < n :: Accepted(st, ops, i, id) <==> Accepted(st, front, i, id);
      LastAccepted(Replay(st, front), last, id);
      assert Replay(st, ops) == ApplyOp(Replay(st, front), last) by { ReplayLast(st, ops); }
      assert Accepted(st, ops, n, id) <==> last.AddUser? && last.u.id == id && !Taken(Replay(st, front), last.u);
    }
  }

  lemma {:induction false} ReplayLast(st: State, ops: seq<Op>)
    requires ops != []
    ensures Replay(st, ops) == ApplyOp(Replay(st, ops[..|ops| - 1]), ops[|ops| - 1])
  {}

  lemma {:induction false} LastAccepted(st: State, op: Op, id: u64)
    ensures id in ApplyOp(st, op).users <==> id in st.users || (op.AddUser? && op.u.id == id && !Taken(st, op.u))
  {
    hide NameTaken;
  }

  /** The tweet that an id holds after the operations has a user that was not there and that none of them brought
      in. */
  predicate Homeless(st: State, ops: seq<Op>, id: u64) {
    var t := Held(st, ops, id);
    t.Some? && !Known(st, ops, t.value.userId)
  }

  lemma {:induction false} HomelessExactly(st: State, ops: seq<Op>, id: u64)
    ensures var end := Replay(st, ops);
      Homeless(st, ops, id) <==> id in end.tweets && end.tweets[id].userId !in end.users
  {
    FirstTweetStays(st, ops, id);
    var t := Held(st, ops, id);
    hide Known, Replay, Held;
    if t.Some? { KnownExactly(st, ops, t.value.userId); }
  }

  /** After every run of entities, from any stores and with nested statuses, duplicates, throws and deletes, each
      stored tweet's user is found if and only if no id holds a tweet whose user was never accepted. */
  lemma {:induction false} LookupsFindExactly(env: Env, st: State, es: seq<Json>)
    ensures LookupsFind(AfterEntities(env, st, es)) <==> forall id: u64 :: !Homeless(st, RunOps(env, es), id)
  {
    var ops := RunOps(env, es);
    var end := Replay(st, ops);
    RunReplays(env, st, es);
    hide Homeless, Replay, RunOps, AfterEntities;
    forall id: u64
      ensures Homeless(st, ops, id) <==> id in end.tweets && end.tweets[id].userId !in end.users
    {
      HomelessExactly(st, ops, id);
    }
  }

  /** The entity names the id of a tweet whose user is missing: a complete tweet as it is held after the entity, a
      removed one as it was held before. */
  predicate MissesUser(env: Env, st: State, es: seq<Json>, t: Json) {
    t.JObject? &&
    if "text" in t.fields then
      AllComplete(Levels(t)) && Homeless(st, RunOps(env, es + [t]), TweetAt(env, Levels(t)).id)
    else
      "delete" in t.fields && DeletedId(t.fields).Some? && Homeless(st, RunOps(env, es), DeletedId(t.fields).value)
  }

  /** Exactly when the printing of an entity dereferences a lookup that found nothing, at any point of any run. */
  lemma {:induction false} LookupFailsExactly(env: Env, st: State, es: seq<Json>, t: Json)
    ensures ProcessEntity(env, AfterEntities(env, st, es), t).1 == Undefined <==> MissesUser(env, st, es, t)
  {
    var now := AfterEntities(env, st, es);
    var ops, all := RunOps(env, es), RunOps(env, es + [t]);
    assert (es + [t])[..|es|] == es;
    assert all == ops + EntityOps(env, t);
    RunReplays(env, st, es);
    ProcessReplays(env, now, t);
    ReplayAppend(st, ops, EntityOps(env, t));
    hide Homeless, Replay, RunOps, AfterEntities, EntityOps, AllComplete, TweetAt, Levels;
    if t.JObject? && "text" in t.fields {
      if AllComplete(Levels(t)) { HomelessExactly(st, all, TweetAt(env, Levels(t)).id); }
      TextOutcome(env, now, t);
    } else if t.JObject? && "delete" in t.fields && DeletedId(t.fields).Some? {
      HomelessExactly(st, ops, DeletedId(t.fields).value);
    }
  }

  lemma {:induction false} TextOutcome(env: Env, st: State, t: Json)
    requires t.JObject? && "text" in t.fields
    ensures ProcessEntity(env, st, t).1
         == if AllComplete(Levels(t)) then PrintOutcome(ProcessEntity(env, st, t).0, TweetAt(env, Levels(t)).id)
            else Thrown
  {
    ConstructReplays(env, st, t);
    hide Construct, AllComplete, Levels, TweetAt, UserOps, TweetOps, InsertTweet, Replay;
  }

  lemma {:induction false} LoneOps(env: Env, t: Json)
    requires t.JObject? && "text" in t.fields && Complete(t.fields)
    requires FindObject(t.fields, "retweeted_status").None?
    ensures var w := TweetOf(env, t.fields, None);
      var u := UserOf(env, FindObject(t.fields, "user").value.fields);
      w.userId == u.id && Levels(t) == [t] && AllComplete([t]) && TweetAt(env, [t]) == w &&
      RunOps(env, [] + [t]) == [AddUser(u), AddTweet(w)]
  {
    assert ([] + [t])[..0] == [] && [t][1..] == [];
    hide UserOf;
    assert UserOps(env, [t]) == [AddUser(UserOf(env, FindObject(t.fields, "user").value.fields))] + [];
    assert TweetOps(env, [t]) == [] + [AddTweet(TweetAt(env, [t]))];
  }

  /** For one complete tweet without nested status the condition can be read off the stores: the tweet already held
      under its id has no user, or there is none and its own user's name is taken by another id. */
  lemma {:induction false} LoneTweetFailsExactly(env: Env, st: State, t: Json)
    requires t.JObject? && "text" in t.fields && Complete(t.fields)
    requires FindObject(t.fields, "retweeted_status").None?
    ensures var w := TweetOf(env, t.fields, None);
      var u := UserOf(env, FindObject(t.fields, "user").value.fields);
      ProcessEntity(env, st, t).1 == Undefined <==>
        if w.id in st.tweets then st.tweets[w.id].userId !in InsertUser(st, u).users
        else u.id !in st.users && NameTaken(st.users, u.screenName)
  {
    LoneOps(env, t);
    var w, u := TweetOf(env, t.fields, None), UserOf(env, FindObject(t.fields, "user").value.fields);
    var ops := [AddUser(u), AddTweet(w)];
    hide Complete, UserOf, FindObject, TweetOf, Levels, TweetAt, AllComplete, RunOps, NameTaken, ProcessEntity;
    AfterNothing(env, st);
    LookupFailsExactly(env, st, [], t);
    hide AfterEntities;
    assert ops[..0] == [] && ops[..1] == [AddUser(u)];
    var held := if w.id in st.tweets then st.tweets[w.id] else w;
    assert SinceRemoval(ops, w.id) == ops by { assert SinceRemoval(ops[..1], w.id) == [] + [AddUser(u)]; }
    assert FirstTweet(ops, w.id) == Some(w) by { assert ops[1..] == [AddTweet(w)]; }
    assert Held(st, ops, w.id) == Some(held);
    assert Accepted(st, ops, 0, held.userId) <==> u.id == held.userId && !Taken(st, u);
    assert !Accepted(st, ops, 1, held.userId);
    hide Accepted, Held;
  }

  // ----- Entities that lose a user

  function UserJson(id: u64, name: string): Json
    requires id <= INT64_MAX
  {
    JObject(map["id" := JInt(id), "screen_name" := JString(name)])
  }

  function TweetJson(id: u64, user: Json, nested: Option<Json>): Json
    requires id <= INT64_MAX
  {
    var o := map["id" := JInt(id), "text" := JString(""), "created_at" := JString(""), "user" := user];
    JObject(if nested.Some? then o["retweeted_status" := nested.value] else o)
  }

  lemma {:induction false} TweetJsonIs(env: Env, id: u64, userId: u64, name: string, nested: Option<Json>)
    requires id <= INT64_MAX && userId <= INT64_MAX && (nested.Some? ==> nested.value.JObject?)
    ensures var o := TweetJson(id, UserJson(userId, name), nested).fields;
      "text" in o && Complete(o) && FindObject(o, "user") == Some(UserJson(userId, name)) &&
      FindObject(o, "retweeted_status") == nested &&
      (forall inner :: TweetOf(env, o, inner).id == id && TweetOf(env, o, inner).userId == userId) &&
      var u := UserOf(env, UserJson(userId, name).fields);
      u.id == userId && u.screenName == name
  {
    KeysOfTweets();
  }

  lemma KeysOfTweets()
    ensures "id" != "text" && "id" != "created_at" && "id" != "user" && "id" != "retweeted_status"
    ensures "text" != "created_at" && "text" != "user" && "text" != "retweeted_status"
    ensures "created_at" != "user" && "created_at" != "retweeted_status" && "user" != "retweeted_status"
    ensures "id" != "screen_name"
  {
    assert "id"[0] == 'i' && "text"[0] == 't' && "created_at"[0] == 'c' && "user"[0] == 'u';
    assert "retweeted_status"[0] == 'r' && "screen_name"[0] == 's';
  }

  /** Such an entity: what it inserts, and how its printing ends. */
  lemma {:induction false} LoneStep(env: Env, st: State, id: u64, userId: u64, name: string)
    requires id <= INT64_MAX && userId <= INT64_MAX
    ensures var t := TweetJson(id, UserJson(userId, name), None);
      exists u: User, w: Tweet :: u.id == userId && u.screenName == name && w.id == id && w.userId == userId &&
        var end := InsertTweet(InsertUser(st, u), w);
        ProcessEntity(env, st, t) == (end, PrintOutcome(end, id))
  {
    var t := TweetJson(id, UserJson(userId, name), None);
    TweetJsonIs(env, id, userId, name, None);
    hide Complete, TweetOf, UserOf, UserJson, TweetJson, InsertTweet, InsertUser, FindObject, PrintOutcome;
    var u, w := UserOf(env, UserJson(userId, name).fields), TweetOf(env, t.fields, None);
    assert ProcessEntity(env, st, t).0 == InsertTweet(InsertUser(st, u), w);
  }

  lemma {:induction false} NestedStep(env: Env, st: State, t: u64, s: u64, a: u64, b: u64, name: string)
    requires t <= INT64_MAX && s <= INT64_MAX && a <= INT64_MAX && b <= INT64_MAX
    ensures var retweet := TweetJson(t, UserJson(a, name), Some(TweetJson(s, UserJson(b, name), None)));
      exists u: User, v: User, w: Tweet, x: Tweet ::
        u.id == a && v.id == b && u.screenName == name && v.screenName == name &&
        w.id == t && w.userId == a && x.id == s && x.userId == b &&
        var end := InsertTweet(InsertTweet(InsertUser(InsertUser(st, u), v), x), w);
        ProcessEntity(env, st, retweet) == (end, PrintOutcome(end, t))
  {
    var inner := TweetJson(s, UserJson(b, name), None);
    var retweet := TweetJson(t, UserJson(a, name), Some(inner));
    TweetJsonIs(env, t, a, name, Some(inner));
    TweetJsonIs(env, s, b, name, None);
    hide Complete, TweetOf, UserOf, UserJson, TweetJson, InsertTweet, InsertUser, FindObject, PrintOutcome;
    var u, v := UserOf(env, UserJson(a, name).fields), UserOf(env, UserJson(b, name).fields);
    var x := TweetOf(env, inner.fields, None);
    var w := TweetOf(env, retweet.fields, Some(x.id));
    var st1 := InsertUser(st, u);
    assert Construct(env, st1, inner) == (InsertUser(st1, v), Some(x));
    assert Construct(env, st, retweet) == (InsertTweet(InsertUser(st1, v), x), Some(w));
    assert ProcessEntity(env, st, retweet).0 == InsertTweet(InsertTweet(InsertUser(st1, v), x), w);
  }

  /** Two tweets by users of one name and two ids: the printing of the second one finds no user. */
  lemma {:induction false} SharedNameLosesUser(env: Env, t: u64, s: u64, a: u64, b: u64, name: string)
    requires t <= INT64_MAX && s <= INT64_MAX && a <= INT64_MAX && b <= INT64_MAX && t != s && a != b
    ensures var first := TweetJson(t, UserJson(a, name), None);
      var second := TweetJson(s, UserJson(b, name), None);
      ProcessEntity(env, AfterEntities(env, EMPTY, [first]), second).1 == Undefined &&
      !LookupsFind(AfterEntities(env, EMPTY, [first, second]))
  {
    var first, second := TweetJson(t, UserJson(a, name), None), TweetJson(s, UserJson(b, name), None);
    AfterOneMore(env, EMPTY, [], first);
    AfterOneMore(env, EMPTY, [first], second);
    assert [] + [first] == [first] && [first] + [second] == [first, second];
    AfterNothing(env, EMPTY);
    hide UserJson, TweetJson, InsertByDate, ProcessEntity, AfterEntities;
    LoneStep(env, EMPTY, t, a, name);
    var st := AfterEntities(env, EMPTY, [first]);
    assert a in st.users && st.users[a].screenName == name && b !in st.users && s !in st.tweets;
    LoneStep(env, st, s, b, name);
    assert NameTaken(st.users, name);
    var end := AfterEntities(env, EMPTY, [first, second]);
    assert s in end.tweets && end.tweets[s].userId == b && b !in end.users;
  }

  /** One retweet whose inner user has the outer user's name and another id: it is printed, and the inner
      tweet's user is not found afterwards. */
  lemma {:induction false} RetweetLosesUser(env: Env, t: u64, s: u64, a: u64, b: u64, name: string)
    requires t <= INT64_MAX && s <= INT64_MAX && a <= INT64_MAX && b <= INT64_MAX && t != s && a != b
    ensures var retweet := TweetJson(t, UserJson(a, name), Some(TweetJson(s, UserJson(b, name), None)));
      ProcessEntity(env, EMPTY, retweet).1 == Printed && !LookupsFind(AfterEntities(env, EMPTY, [retweet]))
  {
    var retweet := TweetJson(t, UserJson(a, name), Some(TweetJson(s, UserJson(b, name), None)));
    AfterOneMore(env, EMPTY, [], retweet);
    assert [] + [retweet] == [retweet];
    AfterNothing(env, EMPTY);
    hide UserJson, TweetJson, InsertByDate, ProcessEntity, AfterEntities;
    NestedStep(env, EMPTY, t, s, a, b, name);
    var end := AfterEntities(env, EMPTY, [retweet]);
    assert s in end.tweets && end.tweets[s].userId == b && b !in end.users;
    assert end.tweets[t].userId == a && a in end.users;
  }

  // ----- Order does not matter where entities determine each other

  /** No removals, an id determines its tweet and its user, and a name its user. */
  ghost predicate Determined(ops: seq<Op>) {
    (forall op | op in ops :: !op.Remove?) &&
    (forall a, b | a in ops && b in ops && a.AddTweet? && b.AddTweet? && a.t.id == b.t.id :: a == b) &&
    forall a, b | a in ops && b in ops && a.AddUser? && b.AddUser? &&
      (a.u.id == b.u.id || a.u.screenName == b.u.screenName) :: a == b
  }

  predicate Holds(st: State, op: Op) {
    match op
    case AddTweet(t) => Find(st.tweets, t.id) == Some(t)
    case AddUser(u) => Find(st.users, u.id) == Some(u)
    case Remove(_) => true
  }

  /** Adding what nothing contradicts: it is held afterwards, and nothing else changes. */
  lemma AdditionHolds(front: seq<Op>, ops: seq<Op>, last: Op)
    requires Determined(ops) && last in ops && forall op | op in front :: op in ops
    ensures var st := Replay(EMPTY, front);
      Holds(ApplyOp(st, last), last) && forall op | op in front && Holds(st, op) :: Holds(ApplyOp(st, last), op)
  {
    StoredWasAdded(front);
    var st := Replay(EMPTY, front);
    hide Replay;
    match last
    case AddTweet(t) =>
      if t.id in st.tweets { assert AddTweet(st.tweets[t.id]) in ops; }
    case AddUser(u) =>
      if u.id in st.users { assert AddUser(st.users[u.id]) in ops; }
      if NameTaken(st.users, u.screenName) {
        var id :| id in st.users && st.users[id].screenName == u.screenName;
        assert AddUser(st.users[id]) in ops;
      }
    case Remove(_) =>
  }

  /** Then the stores hold exactly what was added. */
  lemma {:induction false} HoldsAllAdded(ops: seq<Op>)
    requires Determined(ops)
    ensures forall op | op in ops :: Holds(Replay(EMPTY, ops), op)
  {
    if ops != [] {
      var front, last := ops[..|ops| - 1], ops[|ops| - 1];
      assert forall op | op in front :: op in ops;
      assert last in ops && forall op | op in ops :: op == last || op in front;
      AdditionHolds(front, ops, last);
      HoldsAllAdded(front);
      hide Holds, ApplyOp, Determined;
    }
  }

  lemma {:induction false} SameOpsSameStores(ops: seq<Op>, ops': seq<Op>)
    requires Determined(ops) && forall op :: op in ops <==> op in ops'
    ensures Replay(EMPTY, ops).users == Replay(EMPTY, ops').users
    ensures Replay(EMPTY, ops).tweets == Replay(EMPTY, ops').tweets
  {
    var a, b := Replay(EMPTY, ops), Replay(EMPTY, ops');
    assert Determined(ops');
    HoldsAllAdded(ops);
    HoldsAllAdded(ops');
    StoredWasAdded(ops);
    StoredWasAdded(ops');
    hide Replay, Determined;
    forall id ensures Find(a.users, id) == Find(b.users, id) {
      if id in a.users { assert Holds(b, AddUser(a.users[id])); }
      if id in b.users { assert Holds(a, AddUser(b.users[id])); }
    }
    forall id ensures Find(a.tweets, id) == Find(b.tweets, id) {
      if id in a.tweets { assert Holds(b, AddTweet(a.tweets[id])); }
      if id in b.tweets { assert Holds(a, AddTweet(b.tweets[id])); }
    }
    SameMap(a.users, b.users);
    SameMap(a.tweets, b.tweets);
  }

  lemma SameMap<T>(a: map<u64, T>, b: map<u64, T>)
    requires forall id: u64 :: Find(a, id) == Find(b, id)
    ensures a == b
  {
    forall id: u64 ensures id in a <==> id in b { assert Find(a, id) == Find(b, id); }
    forall id: u64 | id in a ensures a[id] == b[id] { assert Find(a, id) == Find(b, id); }
  }

  /** Reordering or repeating the entities of such a run gives the same id-indexed stores. */
  lemma {:induction false} OrderDoesNotMatter(env: Env, es: seq<Json>, es': seq<Json>)
    requires Determined(RunOps(env, es)) && forall t :: t in es <==> t in es'
    ensures AfterEntities(env, EMPTY, es).users == AfterEntities(env, EMPTY, es').users
    ensures AfterEntities(env, EMPTY, es).tweets == AfterEntities(env, EMPTY, es').tweets
  {
    RunReplays(env, EMPTY, es);
    RunReplays(env, EMPTY, es');
    RunOpsMembers(env, es);
    RunOpsMembers(env, es');
    hide Determined, Replay, RunOps, EntityOps;
    SameOpsSameStores(RunOps(env, es), RunOps(env, es'));
  }
}
