/**
 What the signature base string and the request strings are good for: a server that follows
 RFC 5849 rebuilds the signed message, the message determines its parts, and the
 query string splits back into its parameters.
 */
module OAuthTheorems {
  import opened Text
  import opened Encoders
  import opened Params
  import opened OAuth
  import opened OAuthServer
  import opened HttpParse

  // ----- Parameters stay plain

  lemma OwnNames()
    ensures All("oauth_nonce", Unreserved) && All("oauth_timestamp", Unreserved)
    ensures All("oauth_signature", Unreserved) && All("status", Unreserved)
  {}

  lemma PutPlain(ps: seq<Pair>, k: string, v: string)
    requires Plain(ps) && All(k, Unreserved) && IsBytes(v)
    ensures Plain(Put(ps, k, v))
  {
    PutPairs(ps, k, v);
  }

  lemma ErasePlain(ps: seq<Pair>, k: string)
    requires Plain(ps)
    ensures Plain(Erase(ps, k))
  {
    ErasedPairs(ps, k);
  }

  lemma {:induction false} Base64IsBytes(s: seq<byte>)
    ensures IsBytes(Base64(s))
    decreases |s|
  {
    assert forall c: int :: Base64Char(c) as int < 256;
    var q := Quad(Gather(s, 3), if |s| < 3 then 3 - |s| else 0);
    assert IsBytes(q);
    hide Gather, Quad, Base64Char;
    if |s| >= 3 { Base64IsBytes(s[3..]); }
  }

  lemma {:induction false} PreparedPlain(r: Requester, uri: string, nonce: string, time: string)
    requires Plain(r.params) && IsBytes(nonce) && IsBytes(time)
    ensures Plain(r.Prepare(uri, nonce, time).params)
  {
    OwnNames();
    hide Plain, Put, Erase;
    PutPlain(r.params, "oauth_nonce", nonce);
    var a := Put(r.params, "oauth_nonce", nonce);
    PutPlain(a, "oauth_timestamp", time);
    ErasePlain(Put(a, "oauth_timestamp", time), "oauth_signature");
  }

  lemma {:induction false} EraseAppend(a: seq<Pair>, b: seq<Pair>, k: string)
    ensures Erase(a + b, k) == Erase(a, k) + Erase(b, k)
  {
    if a == [] {
      assert a + b == b && Erase(a, k) + Erase(b, k) == Erase(b, k);
    } else {
      EraseAppend(a[1..], b, k);
      assert (a + b)[1..] == a[1..] + b;
      Split([a[0]], Erase(a[1..], k), Erase(b, k));
    }
  }

  lemma Split(a: seq<Pair>, b: seq<Pair>, c: seq<Pair>)
    ensures a + b + c == a + (b + c)
  {}

  // ----- The server

  lemma QueryReads(ps: seq<Pair>)
    requires Plain(ps) && ps != []
    ensures ReadQuery(MakeRequest(Query, ps)) == Some(ps)
  {
    RequestIsJoined(Query, ps);
    PlainIsWire(ps);
    QuerySplits(ps);
    EscapedDecode(ps);
  }

  lemma {:induction false} HeaderReads(ps: seq<Pair>)
    requires Plain(ps) && ps != []
    ensures ReadHeader(OAUTH + MakeRequest(Header, ps)) == Some(ps)
  {
    RequestIsJoined(Header, ps);
    PlainIsWire(ps);
    HeaderSplits(ps);
    EscapedDecode(ps);
    TakeDrop(OAUTH, MakeRequest(Header, ps));
  }

  lemma {:induction false} FormReads(status: string)
    requires IsBytes(status)
    ensures ReadQuery("status=" + Escape(status)) == Some([("status", status)])
  {
    OwnNames();
    QueryReads([("status", status)]);
    hide Escape;
    assert MakeRequest(Query, [("status", status)]) == "status" + "=" + Escape(status);
    assert "status" + "=" == "status=";
  }

  /** The parameters after `statuses_update`, looked up. */
  lemma {:induction false} UpdatedGet(
      r: Requester, h: Hmac, status: string, uri: string, nonce: string, time: string, k: string)
    ensures var p := r.With("status", status).Prepare(uri, nonce, time);
      p.params != [] &&
      Get(Updated(r, h, status, uri, nonce, time).params, k)
        == (if k == "status" then None
            else if k == "oauth_signature" then Some(SignatureOf(h, p, uri, "POST")) else Get(p.params, k))
  {
    PreparedNotEmpty(r.With("status", status), uri, nonce, time);
    var p := r.With("status", status).Prepare(uri, nonce, time);
    var s := SignatureOf(h, p, uri, "POST");
    GetPut(p.params, "oauth_signature", s, k);
    GetErase(Put(p.params, "oauth_signature", s), "status", k);
    hide Put, Erase, Get, SignatureOf, Requester.Prepare;
    assert Updated(r, h, status, uri, nonce, time).params == Erase(Put(p.params, "oauth_signature", s), "status");
  }

  lemma {:induction false} SignedPlain(r: Requester, h: Hmac, verb: string, uri: string, nonce: string, time: string)
    requires Sorted(r.params) && Plain(r.params) && IsBytes(nonce) && IsBytes(time)
    ensures var s := r.GenRequestSignature(h, uri, verb, nonce, time).params; Plain(s) && Sorted(s)
  {
    OwnNames();
    PreparedNotEmpty(r, uri, nonce, time);
    PreparedPlain(r, uri, nonce, time);
    PreparedSorted(r, uri, nonce, time);
    var p := r.Prepare(uri, nonce, time);
    var s := SignatureOf(h, p, uri, verb);
    Base64IsBytes(h(p.consumerSecret + "&" + p.tokenSecret, Message(verb, uri, p.params)));
    assert IsBytes(s);
    hide Plain, Sorted, Put, Erase, Message, SignatureOf, Requester.Prepare;
    assert r.GenRequestSignature(h, uri, verb, nonce, time).params == Put(p.params, "oauth_signature", s);
    PutPlain(p.params, "oauth_signature", s);
    PutSorted(p.params, "oauth_signature", s);
  }

  /** The server rebuilt the signed message, and the signature in the sender's parameters is the one of
      the rebuilt message. */
  predicate Verifies(rebuilt: Option<string>, message: string, u: Requester, h: Hmac) {
    rebuilt == Some(message) &&
    Get(u.params, "oauth_signature") == Some(Base64(h(u.consumerSecret + "&" + u.tokenSecret, rebuilt.value)))
  }

  /** POST: from the header and the form body of `statuses_update` the server rebuilds exactly the
      message that was signed, and the signature it received is the one of that message. */
  lemma {:induction false} ServerRebuildsPost(
      r: Requester, h: Hmac, status: string, uri: string, nonce: string, time: string)
    requires Sorted(r.params) && Plain(r.params) && IsBytes(status) && IsBytes(nonce) && IsBytes(time)
    ensures var p := r.With("status", status).Prepare(uri, nonce, time);
      var u := Updated(r, h, status, uri, nonce, time);
      u.params != [] && p.params != [] &&
      Verifies(
        Rebuilt("POST", uri, ReadHeader(OAUTH + MakeRequest(Header, u.params)), ReadQuery("status=" + Escape(status))),
        Message("POST", uri, p.params), u, h)
  {
    var r1 := r.With("status", status);
    var p := r1.Prepare(uri, nonce, time);
    var u := Updated(r, h, status, uri, nonce, time);
    PreparedNotEmpty(r1, uri, nonce, time);
    UpdatedNotEmpty(r, h, status, uri, nonce, time);
    UpdatedGet(r, h, status, uri, nonce, time, "oauth_signature");
    KeysDiffer();
    OwnNames();
    hide Plain, Sorted, Put, Erase, Get, Message, MakeRequest, ReadQuery, ReadHeader, Requester.GenRequestSignature;
    PutPlain(r.params, "status", status);
    PutSorted(r.params, "status", status);
    PreparedPlain(r1, uri, nonce, time);
    PreparedSorted(r1, uri, nonce, time);
    SignedPlain(r1, h, "POST", uri, nonce, time);
    var signed := r1.GenRequestSignature(h, uri, "POST", nonce, time).params;
    ErasePlain(signed, "status");
    EraseSorted(signed, "status");
    HeaderReads(u.params);
    FormReads(status);
    PostLookups(r, h, status, uri, nonce, time);
    NormalizesTo(u.params + [("status", status)], p.params);
    BaseIsMessage("POST", uri, u.params + [("status", status)], p.params);
    UpdatedSecrets(r, h, status, uri, nonce, time);
  }

  lemma UpdatedSecrets(r: Requester, h: Hmac, status: string, uri: string, nonce: string, time: string)
    ensures var u := Updated(r, h, status, uri, nonce, time);
      var p := r.With("status", status).Prepare(uri, nonce, time);
      u.consumerSecret == p.consumerSecret && u.tokenSecret == p.tokenSecret
  {
    hide Put, Erase;
  }

  lemma BaseIsMessage(verb: string, uri: string, received: seq<Pair>, signed: seq<Pair>)
    requires signed != [] && Normalize(received) == MakeRequest(Query, signed)
    ensures BaseString(verb, uri, received) == Message(verb, uri, signed)
  {
    hide Normalize, MakeRequest, Escape;
  }

  /** Header and form together, without the signature, look up as what was signed. */
  lemma {:induction false} PostLookups(r: Requester, h: Hmac, status: string, uri: string, nonce: string, time: string)
    requires var u := Updated(r, h, status, uri, nonce, time).params; Sorted(u) && Plain(u)
    requires IsBytes(status)
    ensures var u := Updated(r, h, status, uri, nonce, time).params;
      var p := r.With("status", status).Prepare(uri, nonce, time).params;
      var e := Erase(u + [("status", status)], "oauth_signature");
      Plain(e) && Distinct(e) && forall k :: Get(e, k) == Get(p, k)
  {
    var u := Updated(r, h, status, uri, nonce, time).params;
    var r1 := r.With("status", status);
    var p := r1.Prepare(uri, nonce, time).params;
    var s := [("status", status)];
    KeysDiffer();
    OwnNames();
    var e := Erase(u + s, "oauth_signature");
    assert Erase(s, "oauth_signature") == s;
    assert forall k :: Get(s, k) == if k == "status" then Some(status) else None;
    var e1 := Erase(u, "oauth_signature");
    EraseAppend(u, s, "oauth_signature");
    ErasePlain(u, "oauth_signature");
    assert Plain(e1 + s);
    hide Plain, Put, Erase, Get, Updated, Requester.Prepare;
    EraseSorted(u, "oauth_signature");
    SortedIsDistinct(e1);
    GetErase(u, "oauth_signature", "status");
    UpdatedGet(r, h, status, uri, nonce, time, "status");
    DistinctAppend(e1, ("status", status));
    forall k ensures Get(e, k) == Get(p, k) {
      GetErase(u, "oauth_signature", k);
      GetAppend(e1, s, k);
      UpdatedGet(r, h, status, uri, nonce, time, k);
      PreparedGet(r1, uri, nonce, time, k);
      GetPut(r.params, "status", status, k);
    }
  }

  /** GET: the same from the query string alone. */
  lemma {:induction false} ServerRebuildsGet(
      r: Requester, h: Hmac, verb: string, uri: string, nonce: string, time: string)
    requires Sorted(r.params) && Plain(r.params) && IsBytes(nonce) && IsBytes(time)
    ensures var p := r.Prepare(uri, nonce, time);
      var u := r.GenRequestSignature(h, uri, verb, nonce, time);
      u.params != [] && p.params != [] &&
      Verifies(
        Rebuilt(verb, uri, ReadQuery(MakeRequest(Query, u.params)), Some([])), Message(verb, uri, p.params), u, h)
  {
    var p := r.Prepare(uri, nonce, time);
    PreparedNotEmpty(r, uri, nonce, time);
    var s := SignatureOf(h, p, uri, verb);
    var u := Put(p.params, "oauth_signature", s);
    GetPut(p.params, "oauth_signature", s, "oauth_signature");
    NonEmpty(u, "oauth_signature");
    PreparedGet(r, uri, nonce, time, "oauth_signature");
    PreparedPlain(r, uri, nonce, time);
    PreparedSorted(r, uri, nonce, time);
    SignedPlain(r, h, verb, uri, nonce, time);
    hide Plain, Put, Erase, Get, Sorted, Message, MakeRequest, ReadQuery, Requester.Prepare, SignatureOf;
    QueryReads(u);
    assert u + [] == u;
    EraseAgain(p.params, "oauth_signature", s);
    SortedIsDistinct(p.params);
    NormalizesTo(u, p.params);
    BaseIsMessage(verb, uri, u, p.params);
    SignedIs(r, h, verb, uri, nonce, time);
  }

  lemma SignedIs(r: Requester, h: Hmac, verb: string, uri: string, nonce: string, time: string)
    ensures var p := r.Prepare(uri, nonce, time);
      p.params != [] &&
      var u := r.GenRequestSignature(h, uri, verb, nonce, time);
      var s := SignatureOf(h, p, uri, verb);
      u.params == Put(p.params, "oauth_signature", s) &&
      s == Base64(h(u.consumerSecret + "&" + u.tokenSecret, Message(verb, uri, p.params)))
  {
    PreparedNotEmpty(r, uri, nonce, time);
    hide Put, Erase, Message;
  }

  // ----- Every sequence of calls

  /** The arguments that become parameter values are bytes. */
  predicate OfBytes(c: Call) {
    match c
    case Consumer(key, _) => IsBytes(key)
    case Token(key, _) => IsBytes(key)
    case Pin(pin) => IsBytes(pin)
    case ClearPin => true
    case Sign(_, _, nonce, time) => IsBytes(nonce) && IsBytes(time)
    case Update(status, _, nonce, time) => IsBytes(status) && IsBytes(nonce) && IsBytes(time)
  }

  lemma ApplyPlain(r: Requester, h: Hmac, c: Call)
    requires Sorted(r.params) && Plain(r.params) && OfBytes(c)
    ensures Plain(Apply(r, h, c).params)
  {
    OwnNames();
    assert All("oauth_consumer_key", Unreserved) && All("oauth_token", Unreserved) && All("oauth_verifier", Unreserved);
    hide Plain, Sorted, Put, Erase, Requester.GenRequestSignature, Unreserved, IsBytes;
    match c
    case Consumer(key, _) => PutPlain(r.params, "oauth_consumer_key", key);
    case Token(key, _) => PutPlain(r.params, "oauth_token", key);
    case Pin(pin) => PutPlain(r.params, "oauth_verifier", pin);
    case ClearPin => ErasePlain(r.params, "oauth_verifier");
    case Sign(uri, verb, nonce, time) => SignedPlain(r, h, verb, uri, nonce, time);
    case Update(status, uri, nonce, time) =>
      var a := r.With("status", status);
      PutPlain(r.params, "status", status);
      PutSorted(r.params, "status", status);
      SignedPlain(a, h, "POST", uri, nonce, time);
      ErasePlain(a.GenRequestSignature(h, uri, "POST", nonce, time).params, "status");
  }

  lemma {:induction false} FreshPlain()
    ensures Plain(FRESH.params)
  {
    var a, b := "oauth_signature_method", "oauth_version";
    assert All(a, Unreserved) && All(b, Unreserved);
    PutPlain([], a, "HMAC-SHA1");
    PutPlain(Put([], a, "HMAC-SHA1"), b, "1.0");
  }

  /** Whatever calls were made with byte arguments, names stay unreserved, values stay bytes and the map in order. */
  lemma {:induction false} CallsKeepPlain(h: Hmac, cs: seq<Call>)
    requires forall c | c in cs :: OfBytes(c)
    ensures Plain(AfterCalls(h, cs).params) && Sorted(AfterCalls(h, cs).params)
  {
    FreshPlain();
    MethodAndVersionStay(h, cs);
    hide Plain, Sorted, FRESH, OfBytes;
    if cs != [] {
      var front := cs[..|cs| - 1];
      CallsKeepPlain(h, front);
      hide Apply;
      ApplyPlain(AfterCalls(h, front), h, cs[|cs| - 1]);
    }
  }

  lemma CallsLast(h: Hmac, cs: seq<Call>, c: Call)
    ensures AfterCalls(h, cs + [c]) == Apply(AfterCalls(h, cs), h, c)
  {
    assert (cs + [c])[..|cs|] == cs;
    hide Apply;
  }

  /** So every update at the end of any such sequence of calls is one that the server verifies. */
  lemma {:induction false} EveryUpdateVerifies(
      h: Hmac, cs: seq<Call>, status: string, uri: string, nonce: string, time: string)
    requires forall c | c in cs + [Update(status, uri, nonce, time)] :: OfBytes(c)
    ensures var p := AfterCalls(h, cs).With("status", status).Prepare(uri, nonce, time);
      var u := AfterCalls(h, cs + [Update(status, uri, nonce, time)]);
      u.params != [] && p.params != [] &&
      Verifies(
        Rebuilt("POST", uri, ReadHeader(OAUTH + MakeRequest(Header, u.params)), ReadQuery("status=" + Escape(status))),
        Message("POST", uri, p.params), u, h)
  {
    var c := Update(status, uri, nonce, time);
    assert c in cs + [c] && forall d | d in cs :: d in cs + [c];
    CallsKeepPlain(h, cs);
    CallsLast(h, cs, c);
    hide Plain, Sorted, AfterCalls, Requester.With, Requester.Prepare, Verifies, ReadHeader, ReadQuery, Escape, Message,
      MakeRequest, Rebuilt, Updated, IsBytes;
    ServerRebuildsPost(AfterCalls(h, cs), h, status, uri, nonce, time);
  }

  /** And so is every signed query string. */
  lemma {:induction false} EverySigningVerifies(
      h: Hmac, cs: seq<Call>, uri: string, verb: string, nonce: string, time: string)
    requires forall c | c in cs + [Sign(uri, verb, nonce, time)] :: OfBytes(c)
    ensures var p := AfterCalls(h, cs).Prepare(uri, nonce, time);
      var u := AfterCalls(h, cs + [Sign(uri, verb, nonce, time)]);
      u.params != [] && p.params != [] &&
      Verifies(
        Rebuilt(verb, uri, ReadQuery(MakeRequest(Query, u.params)), Some([])), Message(verb, uri, p.params), u, h)
  {
    var c := Sign(uri, verb, nonce, time);
    assert c in cs + [c] && forall d | d in cs :: d in cs + [c];
    CallsKeepPlain(h, cs);
    CallsLast(h, cs, c);
    hide Plain, Sorted, AfterCalls, Requester.Prepare, Verifies, ReadQuery, Message, MakeRequest, Rebuilt,
      Requester.GenRequestSignature, IsBytes;
    ServerRebuildsGet(AfterCalls(h, cs), h, verb, uri, nonce, time);
  }

  /** The string that is signed lists its parameters in ascending byte order of their names. */
  predicate Ascends(query: string) {
    var qs := SplitQuery(query);
    qs.Some? && forall i, j | 0 <= i < j < |qs.value| :: Before(qs.value[i].0, qs.value[j].0)
  }

  lemma {:induction false} SortedAscends(ps: seq<Pair>)
    requires Sorted(ps) && Plain(ps) && ps != []
    ensures Ascends(MakeRequest(Query, ps))
  {
    RequestIsJoined(Query, ps);
    PlainIsWire(ps);
    QuerySplits(ps);
    forall i, j | 0 <= i < j < |ps| ensures Before(Escaped(ps)[i].0, Escaped(ps)[j].0) {
      NamesAscend(ps, i, j);
      EscapedAt(ps, i);
      EscapedAt(ps, j);
    }
    hide Sorted, Plain, Before;
  }

  lemma {:induction false} EscapedAt(ps: seq<Pair>, i: nat)
    requires i < |ps|
    ensures Escaped(ps)[i] == (ps[i].0, Escape(ps[i].1))
  {
    hide Escape;
    if i > 0 { EscapedAt(ps[1..], i - 1); }
  }

  /** After every sequence of calls with byte arguments, whatever is signed next is signed in that order. */
  lemma {:induction false} SignedInOrder(h: Hmac, cs: seq<Call>, uri: string, nonce: string, time: string)
    requires (forall c | c in cs :: OfBytes(c)) && IsBytes(nonce) && IsBytes(time)
    ensures var p := AfterCalls(h, cs).Prepare(uri, nonce, time).params; p != [] && Ascends(MakeRequest(Query, p))
    ensures forall status | IsBytes(status) ::
              var p := AfterCalls(h, cs).With("status", status).Prepare(uri, nonce, time).params;
              p != [] && Ascends(MakeRequest(Query, p))
  {
    var r := AfterCalls(h, cs);
    CallsKeepPlain(h, cs);
    OwnNames();
    hide Plain, Sorted, AfterCalls, Ascends, MakeRequest, Put, Erase;
    PreparedInOrder(r, uri, nonce, time);
    forall status | IsBytes(status)
      ensures var p := r.With("status", status).Prepare(uri, nonce, time).params;
        p != [] && Ascends(MakeRequest(Query, p))
    {
      PutPlain(r.params, "status", status);
      PutSorted(r.params, "status", status);
      PreparedInOrder(r.With("status", status), uri, nonce, time);
    }
  }

  lemma {:induction false} PreparedInOrder(r: Requester, uri: string, nonce: string, time: string)
    requires Sorted(r.params) && Plain(r.params) && IsBytes(nonce) && IsBytes(time)
    ensures var p := r.Prepare(uri, nonce, time).params; p != [] && Ascends(MakeRequest(Query, p))
  {
    PreparedNotEmpty(r, uri, nonce, time);
    PreparedPlain(r, uri, nonce, time);
    PreparedSorted(r, uri, nonce, time);
    hide Plain, Sorted, Ascends, MakeRequest, Requester.Prepare;
    SortedAscends(r.Prepare(uri, nonce, time).params);
  }

  // ----- The message determines its parts

  lemma {:induction false} EscapedInjective(a: seq<Pair>, b: seq<Pair>)
    requires Escaped(a) == Escaped(b)
    requires forall p | p in a :: IsBytes(p.1)
    requires forall p | p in b :: IsBytes(p.1)
    ensures a == b
  {
    if a != [] {
      assert a[0] in a && b[0] in b;
      EscapeDecodes(a[0].1);
      EscapeDecodes(b[0].1);
      assert Escaped(a)[0] == Escaped(b)[0] && Escaped(a)[1..] == Escaped(b)[1..];
      assert Escaped(a)[1..] == Escaped(a[1..]) && Escaped(b)[1..] == Escaped(b[1..]);
      EscapedInjective(a[1..], b[1..]);
      assert a == [a[0]] + a[1..] && b == [b[0]] + b[1..];
    }
  }

  lemma {:induction false} JoinedIsBytes(ps: seq<Pair>)
    requires WirePairs(ps)
    ensures IsBytes(Joined(Query, ps))
  {
    if ps != [] {
      assert ps[0] in ps;
      EscapeAvoids(ps[0].1);
      JoinedIsBytes(ps[1..]);
    }
  }

  lemma RequestInjective(a: seq<Pair>, b: seq<Pair>)
    requires WirePairs(a) && WirePairs(b) && a != [] && b != []
    requires MakeRequest(Query, a) == MakeRequest(Query, b)
    ensures a == b
  {
    RequestIsJoined(Query, a);
    RequestIsJoined(Query, b);
    QuerySplits(a);
    QuerySplits(b);
    EscapedInjective(a, b);
  }

  /** Cutting at the first ampersand. */
  lemma CutInjective(a: string, b: string, a': string, b': string)
    requires All(a, NotAmp) && All(a', NotAmp) && a + ("&" + b) == a' + ("&" + b')
    ensures a == a' && b == b'
  {
    SpanOf(a, "&" + b, NotAmp);
    SpanOf(a', "&" + b', NotAmp);
    TakeDrop("&", b);
    TakeDrop("&", b');
  }

  /** Equal messages were made from the same method, the same URI and the same parameters, for methods
      free of `&`, names free of `=` and `&`, and any URIs and values. */
  lemma MessageInjective(verb: string, uri: string, ps: seq<Pair>, verb': string, uri': string, ps': seq<Pair>)
    requires '&' !in verb && '&' !in verb' && IsBytes(uri) && IsBytes(uri')
    requires WirePairs(ps) && WirePairs(ps') && ps != [] && ps' != []
    ensures Message(verb, uri, ps) == Message(verb', uri', ps') ==> verb == verb' && uri == uri' && ps == ps'
  {
    Free(verb);
    Free(verb');
    if Message(verb, uri, ps) == Message(verb', uri', ps') {
      var q, q' := MakeRequest(Query, ps), MakeRequest(Query, ps');
      Assoc5(verb, "&", Escape(uri), "&", Escape(q));
      Assoc5(verb', "&", Escape(uri'), "&", Escape(q'));
      Assoc(Escape(uri), "&", Escape(q));
      Assoc(Escape(uri'), "&", Escape(q'));
      EscapeAvoids(uri);
      EscapeAvoids(uri');
      RequestIsJoined(Query, ps);
      RequestIsJoined(Query, ps');
      JoinedIsBytes(ps);
      JoinedIsBytes(ps');
      EscapeDecodes(q);
      EscapeDecodes(q');
      EscapeDecodes(uri);
      EscapeDecodes(uri');
      hide MakeRequest, Escape, Unescape, WirePairs, Joined;
      CutInjective(verb, Escape(uri) + ("&" + Escape(q)), verb', Escape(uri') + ("&" + Escape(q')));
      CutInjective(Escape(uri), Escape(q), Escape(uri'), Escape(q'));
      RequestInjective(ps, ps');
    }
  }

  // ----- split_params

  /** The names `split_params` can read. */
  predicate Splittable(ps: seq<Pair>) { forall p | p in ps :: '=' !in p.0 }

  predicate Full(ps: seq<Pair>) { forall p | p in ps :: p.0 != "" && p.1 != "" }

  lemma {:induction false} EscapeEmpty(s: string)
    ensures Escape(s) == "" <==> s == ""
  {}

  lemma NameAt(k: string, t: string)
    requires All(k, NotEq)
    ensures var s := k + ("=" + t);
      Span(s, NotEq) == |k| < |s| && s[..|k|] == k && s[|k| + 1..] == t
  {
    NameCut(k, "=" + t);
    hide *;
    DropTwo(k, "=", t);
  }

  lemma ValueAt(v: string, more: string)
    requires All(v, NotAmp) && (more == "" || more[0] == '&')
    ensures var t := v + more;
      Span(t, NotAmp) == |v| && t[..|v|] == v && (more != "" ==> t[|v| + 1..] == more[1..])
  {
    SpanOf(v, more, NotAmp);
    hide *;
    if more != "" {
      assert more == more[..1] + more[1..];
      DropTwo(v, more[..1], more[1..]);
    }
  }

  lemma {:induction false} SplitStep(k: string, v: string, more: string, acc: map<string, string>)
    requires All(k, NotEq) && All(v, NotAmp) && (more == "" || more[0] == '&')
    ensures SplitParams(k + ("=" + (v + more)), acc)
         == if k == "" || v == "" || more == "" then acc else SplitParams(more[1..], FirstWins(acc, [(k, v)]))
  {
    hide *;
    NameAt(k, v + more);
    ValueAt(v, more);
    SplitUnfold(k + ("=" + (v + more)), acc);
  }

  lemma {:induction false} SplitUnfold(s: string, acc: map<string, string>)
    requires Span(s, NotEq) < |s|
    ensures var n := Span(s, NotEq);
      var a := s[n + 1..];
      var m := Span(a, NotAmp);
      SplitParams(s, acc)
        == if n == 0 || m == 0 || m == |a| then acc else SplitParams(a[m + 1..], FirstWins(acc, [(s[..n], a[..m])]))
  {
    hide All, Span, FirstWins;
  }

  lemma {:induction false} JoinedUnfold(ps: seq<Pair>, end: string) returns (more: string)
    requires ps != []
    ensures Joined(Query, ps) + end == ps[0].0 + ("=" + (Escape(ps[0].1) + more))
    ensures more == if |ps| == 1 then end else "&" + (Joined(Query, ps[1..]) + end)
  {
    var tail := if |ps| == 1 then "" else "&" + Joined(Query, ps[1..]);
    more := if |ps| == 1 then end else "&" + (Joined(Query, ps[1..]) + end);
    var v := Escape(ps[0].1);
    hide Escape;
    assert Joined(Query, ps) == ps[0].0 + "=" + v + tail;
    Assoc5(ps[0].0, "=", v, tail, end);
    Assoc(v, tail, end);
    assert tail + end == more by { Assoc("&", Joined(Query, ps[1..]), end); assert "" + end == end; }
  }

  /** The pairs that are read: up to the first empty name or value, and never the last pair unless it is closed. */
  function Read(ps: seq<Pair>, closed: bool): seq<Pair>
    requires ps != []
  {
    if ps[0].0 == "" || ps[0].1 == "" then []
    else if |ps| > 1 then [ps[0]] + Read(ps[1..], closed)
    else if closed then ps else []
  }

  /** The pairs that should be read. */
  function Wanted(ps: seq<Pair>, closed: bool): seq<Pair>
    requires ps != []
  {
    if closed then ps else ps[..|ps| - 1]
  }

  lemma {:induction false} ReadIs(ps: seq<Pair>, closed: bool)
    requires ps != []
    ensures Full(Read(ps, closed))
    ensures Full(Wanted(ps, closed)) ==> Read(ps, closed) == Wanted(ps, closed)
  {
    var wanted := Wanted(ps, closed);
    if |ps| > 1 {
      ReadIs(ps[1..], closed);
      assert wanted == [ps[0]] + Wanted(ps[1..], closed);
      assert ps[0] in wanted;
    } else {
      assert Wanted(ps, true) == ps && ps[0] in ps && ps == [ps[0]];
    }
  }

  lemma EscapedCons(p: Pair, ps: seq<Pair>)
    ensures Escaped([p] + ps) == [(p.0, Escape(p.1))] + Escaped(ps)
  {
    assert ([p] + ps)[1..] == ps;
    hide Escape;
  }

  /** With a closing ampersand every pair is read up to the first empty name or value; without it the last one is
      lost. */
  lemma {:induction false} SplitJoined(ps: seq<Pair>, closed: bool, acc: map<string, string>)
    requires Splittable(ps) && ps != []
    ensures SplitParams(Joined(Query, ps) + (if closed then "&" else ""), acc)
         == FirstWins(acc, Escaped(Read(ps, closed)))
    decreases |ps|
  {
    var p, v, end := ps[0], Escape(ps[0].1), if closed then "&" else "";
    EscapeAvoids(p.1);
    SplittableTail(ps);
    EscapeEmpty(p.1);
    var more := JoinedUnfold(ps, end);
    hide Escape, SplitParams, Joined, FirstWins, Splittable, Escaped;
    var acc' := FirstWins(acc, [(p.0, v)]);
    SplitStep(p.0, v, more, acc);
    SplitLast(p, acc);
    if p.0 != "" && p.1 != "" && |ps| == 1 {
      assert ps == [p];
    } else if p.0 != "" && p.1 != "" {
      TakeDrop("&", Joined(Query, ps[1..]) + end);
      SplitJoined(ps[1..], closed, acc');
      EscapedCons(p, Read(ps[1..], closed));
      FirstWinsCons(acc, (p.0, v), Escaped(Read(ps[1..], closed)));
    }
  }

  lemma SplittableTail(ps: seq<Pair>)
    requires Splittable(ps) && ps != []
    ensures Splittable(ps[1..]) && All(ps[0].0, NotEq)
  {
    assert ps[0] in ps;
    Free(ps[0].0);
  }

  lemma SplitLast(p: Pair, acc: map<string, string>)
    ensures Escaped([p]) == [(p.0, Escape(p.1))] && FirstWins(acc, Escaped([])) == acc
    ensures forall m: map<string, string> :: SplitParams("", m) == m
    ensures "&"[1..] == ""
  {
    hide Escape;
  }

  lemma FirstWinsCons(acc: map<string, string>, f: Pair, fs: seq<Pair>)
    ensures FirstWins(FirstWins(acc, [f]), fs) == FirstWins(acc, [f] + fs)
  {
    assert ([f] + fs)[1..] == fs;
  }

  /** A parameter list as a map, values escaped. */
  lemma {:induction false} FirstWinsIsGet(acc: map<string, string>, fs: seq<Pair>, k: string)
    ensures Find(FirstWins(acc, fs), k) == if k in acc then Some(acc[k]) else Get(fs, k)
    decreases |fs|
  {
    if fs != [] {
      FirstWinsIsGet(if fs[0].0 in acc then acc else acc[fs[0].0 := fs[0].1], fs[1..], k);
    }
  }

  lemma {:induction false} EscapedGet(ps: seq<Pair>, k: string)
    ensures Get(Escaped(ps), k) == EscapeOption(Get(ps, k))
  {
    if ps != [] {
      EscapedGet(ps[1..], k);
      assert Escaped(ps)[1..] == Escaped(ps[1..]);
    }
  }

  /** A query string looks up as the escaped values of some pairs. */
  ghost predicate LooksUp(query: string, ps: seq<Pair>) {
    forall k :: Find(SplitParams(query, map[]), k) == EscapeOption(Get(ps, k))
  }

  lemma {:induction false} QueryLooksUp(ps: seq<Pair>, closed: bool)
    requires Splittable(ps) && ps != []
    ensures LooksUp(MakeRequest(Query, ps) + (if closed then "&" else ""), Read(ps, closed))
  {
    hide MakeRequest, Joined, SplitParams, FirstWins;
    RequestIsJoined(Query, ps);
    SplitJoined(ps, closed, map[]);
    forall k
      ensures Find(SplitParams(MakeRequest(Query, ps) + (if closed then "&" else ""), map[]), k)
           == EscapeOption(Get(Read(ps, closed), k))
    {
      FirstWinsIsGet(map[], Escaped(Read(ps, closed)), k);
      EscapedGet(Read(ps, closed), k);
    }
  }

  /** What is read has no empty names or values, so a pair that has one is not found. */
  lemma {:induction false} EmptyIsLost(query: string, read: seq<Pair>, wanted: seq<Pair>, p: Pair)
    requires LooksUp(query, read) && LooksUp(query, wanted) && Full(read)
    requires Distinct(wanted) && p in wanted
    ensures p.0 != "" && p.1 != ""
  {
    DistinctGet(wanted, p);
    GetIs(read, p.0);
    hide Get, SplitParams, Distinct, Escape;
    assert EscapeOption(Get(read, p.0)) == EscapeOption(Get(wanted, p.0));
    EscapeEmpty(p.1);
    if Get(read, p.0).Some? { EscapeEmpty(Get(read, p.0).value); }
  }

  lemma {:induction false} DistinctGet(ps: seq<Pair>, p: Pair)
    requires Distinct(ps) && p in ps
    ensures Get(ps, p.0) == Some(p.1)
  {
    if p != ps[0] {
      assert p in ps[1..];
      DistinctGet(ps[1..], p);
    }
  }

  lemma {:induction false} SplitsExactly(ps: seq<Pair>, closed: bool)
    requires Splittable(ps) && ps != []
    ensures var query := MakeRequest(Query, ps) + (if closed then "&" else "");
      (Full(Wanted(ps, closed)) ==> LooksUp(query, Wanted(ps, closed))) &&
      (Distinct(Wanted(ps, closed)) && LooksUp(query, Wanted(ps, closed)) ==> Full(Wanted(ps, closed)))
  {
    var read, wanted := Read(ps, closed), Wanted(ps, closed);
    var query := MakeRequest(Query, ps) + (if closed then "&" else "");
    QueryLooksUp(ps, closed);
    ReadIs(ps, closed);
    hide Read, Wanted, MakeRequest, LooksUp, Distinct, Splittable;
    if Distinct(wanted) && LooksUp(query, wanted) {
      forall p | p in wanted ensures p.0 != "" && p.1 != "" { EmptyIsLost(query, read, wanted, p); }
    }
  }

  /** The query string followed by an ampersand splits into the parameter map with escaped values if and only if
      no name and no value is empty. */
  lemma {:induction false} ClosedQuerySplitsBack(ps: seq<Pair>)
    requires Splittable(ps) && ps != []
    ensures Full(ps) ==> LooksUp(MakeRequest(Query, ps) + "&", ps)
    ensures Sorted(ps) ==> (LooksUp(MakeRequest(Query, ps) + "&", ps) <==> Full(ps))
  {
    hide Splittable, MakeRequest, LooksUp, Full, Sorted, Distinct;
    SplitsExactly(ps, true);
    if Sorted(ps) { SortedIsDistinct(ps); }
  }

  /** A query string looks up as the pairs without their last one. */
  ghost predicate LooksUpAllButLast(query: string, ps: seq<Pair>)
    requires ps != []
  {
    forall k :: Find(SplitParams(query, map[]), k)
             == if k == ps[|ps| - 1].0 then None else EscapeOption(Get(ps, k))
  }

  lemma {:induction false} FrontLooksUp(query: string, ps: seq<Pair>)
    requires Sorted(ps) && ps != []
    ensures LooksUpAllButLast(query, ps) <==> LooksUp(query, ps[..|ps| - 1])
  {
    hide SplitParams, Find, Get, Sorted;
    forall k
      ensures EscapeOption(Get(ps[..|ps| - 1], k)) == if k == ps[|ps| - 1].0 then None else EscapeOption(Get(ps, k))
    {
      FrontGet(ps, k);
    }
    if LooksUp(query, ps[..|ps| - 1]) {
      forall k
        ensures Find(SplitParams(query, map[]), k)
             == if k == ps[|ps| - 1].0 then None else EscapeOption(Get(ps, k))
      {
        FrontGet(ps, k);
      }
    }
  }

  /** Without that ampersand it splits into the same map minus its greatest name if and only if no name and no value
      in front of that is empty. */
  lemma {:induction false} OpenQueryLosesLast(ps: seq<Pair>)
    requires Sorted(ps) && Splittable(ps) && ps != []
    ensures LooksUpAllButLast(MakeRequest(Query, ps), ps) <==> Full(ps[..|ps| - 1])
    ensures forall p | p in ps[..|ps| - 1] :: Before(p.0, ps[|ps| - 1].0)
  {
    LastGreatest(ps);
    forall p | p in ps[..|ps| - 1] ensures Before(p.0, ps[|ps| - 1].0) { LessIs(p.0, ps[|ps| - 1].0); }
    hide Before;
    FrontSorted(ps);
    FrontLooksUp(MakeRequest(Query, ps), ps);
    hide Sorted, MakeRequest, Less, Distinct, Full, Splittable, LooksUp, LooksUpAllButLast;
    SortedIsDistinct(ps[..|ps| - 1]);
    SplitsExactly(ps, false);
    assert MakeRequest(Query, ps) + "" == MakeRequest(Query, ps);
  }

  lemma {:induction false} FrontSorted(ps: seq<Pair>)
    requires Sorted(ps) && ps != []
    ensures Sorted(ps[..|ps| - 1])
  {
    if |ps| > 1 {
      FrontSorted(ps[1..]);
      Uncons(ps);
      var front := ps[1..][..|ps| - 2];
      assert ps[..|ps| - 1] == [ps[0]] + front;
      SortedCons(ps[0], front);
    }
  }

  lemma FrontGet(ps: seq<Pair>, k: string)
    requires Sorted(ps) && ps != []
    ensures Get(ps[..|ps| - 1], k) == if k == ps[|ps| - 1].0 then None else Get(ps, k)
  {
    var front, last := ps[..|ps| - 1], ps[|ps| - 1];
    assert ps == front + [last];
    LastGreatest(ps);
    GetAppend(front, [last], k);
    GetIs(front, k);
    LessIrreflexive(k);
  }

  lemma {:induction false} LastGreatest(ps: seq<Pair>)
    requires Sorted(ps) && ps != []
    ensures forall p | p in ps[..|ps| - 1] :: Less(p.0, ps[|ps| - 1].0)
  {
    if |ps| > 1 {
      LastGreatest(ps[1..]);
      var last := ps[|ps| - 1];
      assert last in ps[1..];
      forall p | p in ps[..|ps| - 1] ensures Less(p.0, last.0) {
        if p != ps[0] { assert p in ps[1..][..|ps| - 2]; }
      }
    }
  }
}
