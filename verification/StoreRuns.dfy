/**
 Runs of the stores. Every run equals a replay of a flat list of insertions and removals that each
 entity contributes whatever the stores hold; the properties of runs are proved on that list.
 */
module StoreRuns {
  import opened Text
  import opened Json
  import opened Stores

  datatype Op = AddUser(u: User) | AddTweet(t: Tweet) | Remove(id: u64)

  function ApplyOp(st: State, op: Op): State {
    match op
    case AddUser(u) => InsertUser(st, u)
    case AddTweet(t) => InsertTweet(st, t)
    case Remove(id) => EraseTweet(st, id)
  }

  function Replay(st: State, ops: seq<Op>): State {
    if ops == [] then st else ApplyOp(Replay(st, ops[..|ops| - 1]), ops[|ops| - 1])
  }

  // ----- What an entity contributes

  /** A tweet object and the statuses nested in it, outermost first. */
  function Levels(j: Json): (ls: seq<Json>)
    requires j.JObject?
    ensures ls != [] && ls[0] == j && forall i | 0 <= i < |ls| :: ls[i].JObject?
    decreases j
  {
    var inner := FindObject(j.fields, "retweeted_status");
    [j] + (if inner.Some? then Levels(inner.value) else [])
  }

  predicate AllObjects(ls: seq<Json>) { forall i | 0 <= i < |ls| :: ls[i].JObject? }

  /** The users of the levels, outermost first. */
  function UserOps(env: Env, ls: seq<Json>): seq<Op>
    requires AllObjects(ls)
  {
    if ls == [] then []
    else
      var user := FindObject(ls[0].fields, "user");
      (if user.Some? then [AddUser(UserOf(env, user.value.fields))] else []) + UserOps(env, ls[1..])
  }

  predicate AllComplete(ls: seq<Json>)
    requires AllObjects(ls)
  {
    forall i | 0 <= i < |ls| :: Complete(ls[i].fields)
  }

  /** The tweet of the outermost level; the next level, if any, is its retweeted status. */
  function TweetAt(env: Env, ls: seq<Json>): Tweet
    requires AllObjects(ls) && ls != [] && AllComplete(ls)
  {
    TweetOf(env, ls[0].fields, if |ls| == 1 then None else Some(ToU64(FindInt(ls[1].fields, "id").value)))
  }

  /** The tweets of the levels, innermost first, for as long as no level lacks a property. */
  function TweetOps(env: Env, ls: seq<Json>): seq<Op>
    requires AllObjects(ls)
  {
    if ls == [] then []
    else TweetOps(env, ls[1..]) + (if AllComplete(ls) then [AddTweet(TweetAt(env, ls))] else [])
  }

  function EntityOps(env: Env, t: Json): seq<Op> {
    if !t.JObject? then []
    else if "text" in t.fields then UserOps(env, Levels(t)) + TweetOps(env, Levels(t))
    else if "delete" in t.fields && DeletedId(t.fields).Some? then [Remove(DeletedId(t.fields).value)]
    else []
  }

  function RunOps(env: Env, es: seq<Json>): seq<Op> {
    if es == [] then [] else RunOps(env, es[..|es| - 1]) + EntityOps(env, es[|es| - 1])
  }

  function AfterEntities(env: Env, st: State, es: seq<Json>): State {
    if es == [] then st else ProcessEntity(env, AfterEntities(env, st, es[..|es| - 1]), es[|es| - 1]).0
  }

  lemma AfterOneMore(env: Env, st: State, es: seq<Json>, t: Json)
    ensures AfterEntities(env, st, es + [t]) == ProcessEntity(env, AfterEntities(env, st, es), t).0
  {
    hide ProcessEntity;
    assert (es + [t])[..|es|] == es;
  }

  lemma {:induction false} AfterAppend(env: Env, st: State, a: seq<Json>, b: seq<Json>)
    ensures AfterEntities(env, st, a + b) == AfterEntities(env, AfterEntities(env, st, a), b)
  {
    hide ProcessEntity;
    if b == [] {
      assert a + b == a;
    } else {
      AfterAppend(env, st, a, b[..|b| - 1]);
      assert (a + b)[..|a + b| - 1] == a + b[..|b| - 1];
    }
  }

  lemma NoOps(env: Env)
    ensures RunOps(env, []) == []
  {}

  lemma {:induction false} RunOpsCons(env: Env, t: Json, es: seq<Json>)
    ensures RunOps(env, [t] + es) == EntityOps(env, t) + RunOps(env, es)
  {
    hide EntityOps;
    var all := [t] + es;
    if es == [] {
      assert all[..0] == [] && all[0] == t;
      assert [] + EntityOps(env, t) == EntityOps(env, t) == EntityOps(env, t) + [];
    } else {
      RunOpsCons(env, t, es[..|es| - 1]);
      assert all[..|all| - 1] == [t] + es[..|es| - 1];
      OpsAssoc(EntityOps(env, t), RunOps(env, es[..|es| - 1]), EntityOps(env, es[|es| - 1]));
    }
  }

  lemma OpsAssoc(a: seq<Op>, b: seq<Op>, c: seq<Op>)
    ensures a + b + c == a + (b + c)
  {}

  // ----- The run is the replay

  lemma {:induction false} ReplayAppend(st: State, a: seq<Op>, b: seq<Op>)
    ensures Replay(st, a + b) == Replay(Replay(st, a), b)
  {
    if b == [] {
      assert a + b == a;
    } else {
      ReplayAppend(st, a, b[..|b| - 1]);
      assert (a + b)[..|a + b| - 1] == a + b[..|b| - 1];
    }
  }

  lemma ReplayOne(st: State, op: Op)
    ensures Replay(st, [op]) == ApplyOp(st, op)
  {
    assert [op][..0] == [];
  }

  lemma LevelsUnfold(j: Json)
    requires j.JObject?
    ensures var inner := FindObject(j.fields, "retweeted_status");
      Levels(j)[1..] == (if inner.Some? then Levels(inner.value) else []) &&
      (|Levels(j)| > 1 <==> inner.Some?) && (inner.Some? ==> Levels(j)[1] == inner.value)
  {}

  lemma AllCompleteUnfold(ls: seq<Json>)
    requires AllObjects(ls) && ls != []
    ensures AllComplete(ls) <==> Complete(ls[0].fields) && AllComplete(ls[1..])
  {
    if Complete(ls[0].fields) && AllComplete(ls[1..]) {
      forall i | 0 <= i < |ls| ensures Complete(ls[i].fields) {
        if i > 0 { assert ls[i] == ls[1..][i - 1]; }
      }
    }
    if AllComplete(ls) { assert forall i | 0 <= i < |ls[1..]| :: ls[1..][i] == ls[i + 1]; }
  }

  /** The recursive constructor: the users of all levels, then the tweets of the inner ones; the result is
      the outermost tweet exactly when every level is complete. */
  lemma {:induction false} ConstructReplays(env: Env, st: State, j: Json)
    requires j.JObject?
    ensures var ls := Levels(j);
      var (st', r) := Construct(env, st, j);
      st' == Replay(Replay(st, UserOps(env, ls)), TweetOps(env, ls[1..])) &&
      r == if AllComplete(ls) then Some(TweetAt(env, ls)) else None
    decreases j
  {
    var ls := Levels(j);
    var o := j.fields;
    var user, inner := FindObject(o, "user"), FindObject(o, "retweeted_status");
    LevelsUnfold(j);
    AllCompleteUnfold(ls);
    var own := if user.Some? then [AddUser(UserOf(env, user.value.fields))] else [];
    var st1 := if user.Some? then InsertUser(st, UserOf(env, user.value.fields)) else st;
    assert Replay(st, own) == st1 by {
      if user.Some? { ReplayOne(st, own[0]); }
    }
    hide Complete, TweetOf, UserOf, InsertUser, InsertTweet, Replay, ApplyOp, AllComplete;
    var users := UserOps(env, ls[1..]);
    assert UserOps(env, ls) == own + users;
    ReplayAppend(st, own, users);
    if inner.None? {
      assert users == [] && TweetOps(env, ls[1..]) == [];
      ReplayNothing(st1);
      AllCompleteNothing();
    } else {
      ConstructReplays(env, st1, inner.value);
      InnerTweets(env, Replay(st1, users), ls[1..]);
      if AllComplete(ls) { TweetAtId(env, ls); }
    }
  }

  lemma ReplayNothing(st: State)
    ensures Replay(st, []) == st
  {}

  lemma AllCompleteNothing()
    ensures AllComplete([])
  {}

  lemma InnerTweets(env: Env, st: State, ls: seq<Json>)
    requires AllObjects(ls) && ls != []
    ensures Replay(st, TweetOps(env, ls))
         == var st' := Replay(st, TweetOps(env, ls[1..]));
            if AllComplete(ls) then InsertTweet(st', TweetAt(env, ls)) else st'
  {
    var a := TweetOps(env, ls[1..]);
    hide AllComplete, TweetAt, InsertTweet;
    if AllComplete(ls) {
      ReplayAppend(st, a, [AddTweet(TweetAt(env, ls))]);
      ReplayOne(Replay(st, a), AddTweet(TweetAt(env, ls)));
    } else {
      assert a + [] == a;
    }
  }

  lemma TweetAtId(env: Env, ls: seq<Json>)
    requires AllObjects(ls) && |ls| > 1 && AllComplete(ls)
    ensures AllComplete(ls[1..]) && TweetAt(env, ls) == TweetOf(env, ls[0].fields, Some(TweetAt(env, ls[1..]).id))
  {
    AllCompleteUnfold(ls);
    assert ls[1..][0] == ls[1];
  }

  /** One entity: the stores end as its contributions leave them, also when it throws half-way. */
  lemma ProcessReplays(env: Env, st: State, t: Json)
    ensures ProcessEntity(env, st, t).0 == Replay(st, EntityOps(env, t))
  {
    if t.JObject? && "text" in t.fields {
      var ls := Levels(t);
      var users, tweets := UserOps(env, ls), TweetOps(env, ls);
      ConstructReplays(env, st, t);
      InnerTweets(env, Replay(st, users), ls);
      ReplayAppend(st, users, tweets);
    } else if t.JObject? && "delete" in t.fields && DeletedId(t.fields).Some? {
      ReplayOne(st, Remove(DeletedId(t.fields).value));
    }
  }

  /** Every run of entities equals the replay of all their contributions in order. */
  lemma {:induction false} RunReplays(env: Env, st: State, es: seq<Json>)
    ensures AfterEntities(env, st, es) == Replay(st, RunOps(env, es))
  {
    if es != [] {
      var front, t := es[..|es| - 1], es[|es| - 1];
      RunReplays(env, st, front);
      ProcessReplays(env, AfterEntities(env, st, front), t);
      ReplayAppend(st, RunOps(env, front), EntityOps(env, t));
    }
  }
}
