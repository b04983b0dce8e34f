/**
 `token_requester`: the parameter map, the request strings folded from it and the signature.
 HMAC-SHA1 is a function parameter; nonce and time are arguments of the signing call.
 */
module OAuth {
  import opened Text
  import opened Encoders
  import opened Params

  type Hmac = (string, string) -> seq<byte>

  /** The two combiners: query style `k=v` joined by `&`, header style `k="v"` joined by `, `. */
  datatype Style = Query | Header

  function Combine(style: Style, p: Pair): string {
    if style.Query? then p.0 + "=" + Escape(p.1) else p.0 + "=\"" + Escape(p.1) + "\""
  }

  function Joiner(style: Style): string { if style.Query? then "&" else ", " }

  /** The fold of `std::accumulate`. */
  function Accumulate(acc: string, style: Style, ps: seq<Pair>): string
    decreases |ps|
  {
    if ps == [] then acc else Accumulate(acc + Joiner(style) + Combine(style, ps[0]), style, ps[1..])
  }

  /** `make_request`; the source reads the first parameter without looking whether there is one. */
  function MakeRequest(style: Style, ps: seq<Pair>): string
    requires ps != []
  {
    Accumulate(Combine(style, ps[0]), style, ps[1..])
  }

  /** The signature base string. */
  function Message(verb: string, uri: string, ps: seq<Pair>): string
    requires ps != []
  {
    verb + "&" + Escape(uri) + "&" + Escape(MakeRequest(Query, ps))
  }

  datatype Requester = Requester(reqUri: string, consumerSecret: string, tokenSecret: string, params: seq<Pair>)
  {
    function With(k: string, v: string): Requester { this.(params := Put(params, k, v)) }

    function Without(k: string): Requester { this.(params := Erase(params, k)) }

    function SetConsumer(key: string, secret: string): Requester {
      With("oauth_consumer_key", key).(consumerSecret := secret)
    }

    function SetToken(key: string, secret: string): Requester {
      With("oauth_token", key).(tokenSecret := secret)
    }

    function SetPinNumber(pin: string): Requester { With("oauth_verifier", pin) }

    function ClearPinNumber(): Requester { Without("oauth_verifier") }

    /** The state in which the message is formed. */
    function Prepare(uri: string, nonce: string, time: string): Requester {
      this.(reqUri := uri).With("oauth_nonce", nonce).With("oauth_timestamp", time).Without("oauth_signature")
    }

    function GenRequestSignature(h: Hmac, uri: string, verb: string, nonce: string, time: string): Requester {
      var r := Prepare(uri, nonce, time);
      PreparedNotEmpty(this, uri, nonce, time);
      r.With("oauth_signature", SignatureOf(h, r, uri, verb))
    }
  }

  function SignatureOf(h: Hmac, r: Requester, uri: string, verb: string): string
    requires r.params != []
  {
    Base64(h(r.consumerSecret + "&" + r.tokenSecret, Message(verb, uri, r.params)))
  }

  const FRESH: Requester :=
    Requester("", "", "", Put(Put([], "oauth_signature_method", "HMAC-SHA1"), "oauth_version", "1.0"))

  // ----- The object

  class TokenRequester {
    var reqUri: string
    var consumerSecret: string
    var tokenSecret: string
    var params: seq<Pair>

    ghost function View(): Requester
      reads this
    {
      Requester(reqUri, consumerSecret, tokenSecret, params)
    }

    constructor ()
      ensures View() == FRESH
    {
      reqUri, consumerSecret, tokenSecret := "", "", "";
      params := Put(Put([], "oauth_signature_method", "HMAC-SHA1"), "oauth_version", "1.0");
    }

    method SetConsumer(key: string, secret: string)
      modifies this`params, this`consumerSecret
      ensures View() == old(View()).SetConsumer(key, secret)
    {
      params := Put(params, "oauth_consumer_key", key);
      consumerSecret := secret;
    }

    method SetToken(key: string, secret: string)
      modifies this`params, this`tokenSecret
      ensures View() == old(View()).SetToken(key, secret)
    {
      params := Put(params, "oauth_token", key);
      tokenSecret := secret;
    }

    method SetPinNumber(pin: string)
      modifies this`params
      ensures View() == old(View()).SetPinNumber(pin)
    {
      params := Put(params, "oauth_verifier", pin);
    }

    method ClearPinNumber()
      modifies this`params
      ensures View() == old(View()).ClearPinNumber()
    {
      params := Erase(params, "oauth_verifier");
    }

    method GenRequestSignature(h: Hmac, uri: string, verb: string, nonce: string, time: string)
      modifies this`params, this`reqUri
      ensures View() == old(View()).GenRequestSignature(h, uri, verb, nonce, time)
    {
      reqUri := uri;
      params := Put(params, "oauth_nonce", nonce);
      params := Put(params, "oauth_timestamp", time);
      params := Erase(params, "oauth_signature");
      PreparedNotEmpty(old(View()), uri, nonce, time);
      var message := verb + "&" + Escape(uri) + "&" + Escape(MakeRequest(Query, params));
      params := Put(params, "oauth_signature", Base64(h(consumerSecret + "&" + tokenSecret, message)));
    }

    /** The signing part of `statuses_update`: the status is a parameter only while the message is
        formed. Returns the `Authorization` header and the form body. */
    method StatusesUpdate(h: Hmac, status: string, uri: string, nonce: string, time: string)
      returns (authorization: string, body: string)
      modifies this`params, this`reqUri
      ensures View() == Updated(old(View()), h, status, uri, nonce, time)
      ensures params != [] && authorization == "OAuth " + MakeRequest(Header, params)
      ensures body == "status=" + Escape(status)
    {
      params := Put(params, "status", status);
      GenRequestSignature(h, uri, "POST", nonce, time);
      params := Erase(params, "status");
      UpdatedNotEmpty(old(View()), h, status, uri, nonce, time);
      authorization := "OAuth " + MakeRequest(Header, params);
      body := "status=" + Escape(status);
    }
  }

  function Updated(r: Requester, h: Hmac, status: string, uri: string, nonce: string, time: string): Requester {
    r.With("status", status).GenRequestSignature(h, uri, "POST", nonce, time).Without("status")
  }

  lemma NonEmpty(ps: seq<Pair>, k: string)
    requires Get(ps, k).Some?
    ensures ps != []
  {}

  /** What is in the map when the message is formed. */
  lemma {:induction false} PreparedGet(r: Requester, uri: string, nonce: string, time: string, k: string)
    ensures Get(r.Prepare(uri, nonce, time).params, k)
         == if k == "oauth_signature" then None else if k == "oauth_timestamp" then Some(time)
            else if k == "oauth_nonce" then Some(nonce) else Get(r.params, k)
  {
    var a := Put(r.params, "oauth_nonce", nonce);
    var b := Put(a, "oauth_timestamp", time);
    GetPut(r.params, "oauth_nonce", nonce, k);
    GetPut(a, "oauth_timestamp", time, k);
    GetErase(b, "oauth_signature", k);
  }

  lemma KeysDiffer()
    ensures "oauth_nonce" != "oauth_signature" && "oauth_nonce" != "oauth_timestamp"
    ensures "oauth_timestamp" != "oauth_signature" && "status" != "oauth_signature"
    ensures "status" != "oauth_nonce" && "status" != "oauth_timestamp"
  {
    assert "oauth_nonce"[6] == 'n' && "oauth_signature"[6] == 's' && "oauth_timestamp"[6] == 't';
    assert "status"[0] == 's' && "oauth_nonce"[0] == "oauth_signature"[0] == "oauth_timestamp"[0] == 'o';
  }

  lemma {:induction false} PreparedNotEmpty(r: Requester, uri: string, nonce: string, time: string)
    ensures r.Prepare(uri, nonce, time).params != []
  {
    KeysDiffer();
    PreparedGet(r, uri, nonce, time, "oauth_nonce");
    NonEmpty(r.Prepare(uri, nonce, time).params, "oauth_nonce");
  }

  lemma UpdatedNotEmpty(r: Requester, h: Hmac, status: string, uri: string, nonce: string, time: string)
    ensures Updated(r, h, status, uri, nonce, time).params != []
  {
    KeysDiffer();
    var p := r.With("status", status).Prepare(uri, nonce, time);
    PreparedGet(r.With("status", status), uri, nonce, time, "oauth_nonce");
    PreparedNotEmpty(r.With("status", status), uri, nonce, time);
    var s := SignatureOf(h, p, uri, "POST");
    GetPut(p.params, "oauth_signature", s, "oauth_nonce");
    GetErase(Put(p.params, "oauth_signature", s), "status", "oauth_nonce");
    NonEmpty(Updated(r, h, status, uri, nonce, time).params, "oauth_nonce");
  }

  // ----- Every sequence of calls

  datatype Call =
    | Consumer(key: string, secret: string)
    | Token(key: string, secret: string)
    | Pin(pin: string)
    | ClearPin
    | Sign(uri: string, verb: string, nonce: string, time: string)
    | Update(status: string, uri: string, nonce: string, time: string)

  function Apply(r: Requester, h: Hmac, c: Call): Requester {
    match c
    case Consumer(key, secret) => r.SetConsumer(key, secret)
    case Token(key, secret) => r.SetToken(key, secret)
    case Pin(pin) => r.SetPinNumber(pin)
    case ClearPin => r.ClearPinNumber()
    case Sign(uri, m, nonce, time) => r.GenRequestSignature(h, uri, m, nonce, time)
    case Update(status, uri, nonce, time) => Updated(r, h, status, uri, nonce, time)
  }

  function AfterCalls(h: Hmac, cs: seq<Call>): Requester {
    if cs == [] then FRESH else Apply(AfterCalls(h, cs[..|cs| - 1]), h, cs[|cs| - 1])
  }

  predicate Kept(r: Requester) {
    Sorted(r.params) && Get(r.params, "oauth_signature_method") == Some("HMAC-SHA1") &&
    Get(r.params, "oauth_version") == Some("1.0")
  }

  /** Whether `k` is one of the names that no call writes. */
  predicate Untouched(k: string) {
    k != "oauth_consumer_key" && k != "oauth_token" && k != "oauth_verifier" && k != "oauth_nonce" &&
    k != "oauth_timestamp" && k != "oauth_signature" && k != "status"
  }

  lemma WithKeeps(r: Requester, k: string, v: string)
    requires Sorted(r.params)
    ensures Sorted(r.With(k, v).params)
    ensures forall k' | k' != k :: Get(r.With(k, v).params, k') == Get(r.params, k')
    ensures Get(r.With(k, v).params, k) == Some(v)
  {
    PutSorted(r.params, k, v);
    forall k' { GetPut(r.params, k, v, k'); }
  }

  lemma WithoutKeeps(r: Requester, k: string)
    requires Sorted(r.params)
    ensures Sorted(r.Without(k).params)
    ensures forall k' | k' != k :: Get(r.Without(k).params, k') == Get(r.params, k')
    ensures Get(r.Without(k).params, k) == None
  {
    EraseSorted(r.params, k);
    forall k' { GetErase(r.params, k, k'); }
  }

  lemma {:induction false} SignKeeps(r: Requester, h: Hmac, uri: string, m: string, nonce: string, time: string)
    requires Sorted(r.params)
    ensures var s := r.GenRequestSignature(h, uri, m, nonce, time);
      Sorted(s.params) && forall k | Untouched(k) || k == "status" :: Get(s.params, k) == Get(r.params, k)
  {
    KeysDiffer();
    hide Put, Erase, Get, Sorted;
    var a := r.(reqUri := uri);
    WithKeeps(a, "oauth_nonce", nonce);
    var b := a.With("oauth_nonce", nonce);
    WithKeeps(b, "oauth_timestamp", time);
    var c := b.With("oauth_timestamp", time);
    WithoutKeeps(c, "oauth_signature");
    var p := c.Without("oauth_signature");
    PreparedNotEmpty(r, uri, nonce, time);
    WithKeeps(p, "oauth_signature", SignatureOf(h, p, uri, m));
  }

  lemma ApplyKeeps(r: Requester, h: Hmac, c: Call)
    requires Sorted(r.params)
    ensures Sorted(Apply(r, h, c).params)
    ensures forall k | Untouched(k) :: Get(Apply(r, h, c).params, k) == Get(r.params, k)
  {
    hide Put, Erase, Get, Sorted, Requester.GenRequestSignature;
    match c
    case Consumer(key, secret) => WithKeeps(r, "oauth_consumer_key", key);
    case Token(key, secret) => WithKeeps(r, "oauth_token", key);
    case Pin(pin) => WithKeeps(r, "oauth_verifier", pin);
    case ClearPin => WithoutKeeps(r, "oauth_verifier");
    case Sign(uri, m, nonce, time) => SignKeeps(r, h, uri, m, nonce, time);
    case Update(status, uri, nonce, time) =>
      WithKeeps(r, "status", status);
      var a := r.With("status", status);
      SignKeeps(a, h, uri, "POST", nonce, time);
      WithoutKeeps(a.GenRequestSignature(h, uri, "POST", nonce, time), "status");
  }

  lemma {:induction false} FixedNames()
    ensures Untouched("oauth_signature_method") && Untouched("oauth_version")
    ensures Kept(FRESH)
  {
    var a, b := "oauth_signature_method", "oauth_version";
    assert a[6] == 's' && a[7] == 'i' && |a| == 22 && b[6] == 'v' && b[9] == 's' && |b| == 13;
    assert a != b;
    GetPut([], a, "HMAC-SHA1", a);
    GetPut(Put([], a, "HMAC-SHA1"), b, "1.0", a);
    GetPut(Put([], a, "HMAC-SHA1"), b, "1.0", b);
    PutSorted([], a, "HMAC-SHA1");
    PutSorted(Put([], a, "HMAC-SHA1"), b, "1.0");
    assert "oauth_consumer_key"[6] == 'c' && "oauth_token"[6] == 't' && "oauth_verifier"[9] == 'i';
    assert "oauth_nonce"[6] == 'n' && "oauth_timestamp"[6] == 't' && "status"[0] == 's';
    assert |"oauth_signature"| == 15;
  }

  lemma ApplyKept(r: Requester, h: Hmac, c: Call)
    requires Kept(r)
    ensures Kept(Apply(r, h, c))
  {
    hide Sorted, Get;
    FixedNames();
    hide FRESH, Untouched, Apply;
    ApplyKeeps(r, h, c);
  }

  /** After any sequence of calls the map is still in order and still carries the signature method
      and the version it was created with. */
  lemma {:induction false} MethodAndVersionStay(h: Hmac, cs: seq<Call>)
    ensures Kept(AfterCalls(h, cs))
  {
    hide Kept, Apply;
    FixedNames();
    hide FRESH;
    if cs != [] {
      MethodAndVersionStay(h, cs[..|cs| - 1]);
      ApplyKept(AfterCalls(h, cs[..|cs| - 1]), h, cs[|cs| - 1]);
    }
  }

  lemma EraseAgain(ps: seq<Pair>, k: string, v: string)
    requires Sorted(ps) && Get(ps, k).None?
    ensures Erase(Put(ps, k, v), k) == ps
  {
    PutSorted(ps, k, v);
    EraseSorted(Put(ps, k, v), k);
    forall k' ensures Get(Erase(Put(ps, k, v), k), k') == Get(ps, k') {
      GetErase(Put(ps, k, v), k, k');
      GetPut(ps, k, v, k');
    }
    SameLookups(Erase(Put(ps, k, v), k), ps);
  }

  /** Right after each signing, at the end of any sequence of calls, the stored signature is base64
      of the HMAC over the base string of the current parameters without the signature. */
  lemma SignatureIsCurrent(h: Hmac, cs: seq<Call>, uri: string, m: string, nonce: string, time: string)
    ensures var r := AfterCalls(h, cs + [Sign(uri, m, nonce, time)]);
      Erase(r.params, "oauth_signature") != [] &&
      Get(r.params, "oauth_signature") ==
        Some(Base64(h(r.consumerSecret + "&" + r.tokenSecret, Message(m, uri, Erase(r.params, "oauth_signature")))))
  {
    var r0 := AfterCalls(h, cs);
    MethodAndVersionStay(h, cs);
    assert (cs + [Sign(uri, m, nonce, time)])[..|cs|] == cs;
    hide Put, Erase, Get, Sorted, Message, AfterCalls;
    var p := r0.Prepare(uri, nonce, time);
    PreparedSorted(r0, uri, nonce, time);
    PreparedNotEmpty(r0, uri, nonce, time);
    PreparedGet(r0, uri, nonce, time, "oauth_signature");
    var s := SignatureOf(h, p, uri, m);
    EraseAgain(p.params, "oauth_signature", s);
    GetPut(p.params, "oauth_signature", s, "oauth_signature");
    SignLast(h, cs, uri, m, nonce, time);
  }

  lemma SignLast(h: Hmac, cs: seq<Call>, uri: string, m: string, nonce: string, time: string)
    ensures AfterCalls(h, cs + [Sign(uri, m, nonce, time)])
         == AfterCalls(h, cs).GenRequestSignature(h, uri, m, nonce, time)
  {
    assert (cs + [Sign(uri, m, nonce, time)])[..|cs|] == cs;
    hide Requester.GenRequestSignature;
  }

  lemma {:induction false} PreparedSorted(r: Requester, uri: string, nonce: string, time: string)
    requires Sorted(r.params)
    ensures Sorted(r.Prepare(uri, nonce, time).params)
  {
    var a := Put(r.params, "oauth_nonce", nonce);
    var b := Put(a, "oauth_timestamp", time);
    PutSorted(r.params, "oauth_nonce", nonce);
    PutSorted(a, "oauth_timestamp", time);
    EraseSorted(b, "oauth_signature");
  }

  /** Whatever signature was stored before plays no part. */
  lemma {:induction false} EarlierSignatureIgnored(
      r: Requester, h: Hmac, before: string, uri: string, m: string, nonce: string, time: string)
    requires Sorted(r.params)
    ensures r.With("oauth_signature", before).GenRequestSignature(h, uri, m, nonce, time)
         == r.GenRequestSignature(h, uri, m, nonce, time)
  {
    var q := r.With("oauth_signature", before);
    PutSorted(r.params, "oauth_signature", before);
    var a, b := q.Prepare(uri, nonce, time), r.Prepare(uri, nonce, time);
    PreparedSorted(q, uri, nonce, time);
    PreparedSorted(r, uri, nonce, time);
    hide Put, Erase, Sorted;
    forall k ensures Get(a.params, k) == Get(b.params, k) {
      PreparedGet(q, uri, nonce, time, k);
      PreparedGet(r, uri, nonce, time, k);
      GetPut(r.params, "oauth_signature", before, k);
    }
    SameLookups(a.params, b.params);
  }

  /** Each setter stores its value under its own name and leaves every other name alone. */
  lemma {:induction false} SettersStore(r: Requester, x: string, secret: string, k: string)
    ensures Get(r.SetPinNumber(x).params, k) == if k == "oauth_verifier" then Some(x) else Get(r.params, k)
    ensures Get(r.SetConsumer(x, secret).params, k) == if k == "oauth_consumer_key" then Some(x) else Get(r.params, k)
    ensures Get(r.SetToken(x, secret).params, k) == if k == "oauth_token" then Some(x) else Get(r.params, k)
    ensures r.SetPinNumber(x).consumerSecret == r.consumerSecret && r.SetPinNumber(x).tokenSecret == r.tokenSecret
    ensures r.SetConsumer(x, secret).tokenSecret == r.tokenSecret
    ensures r.SetToken(x, secret).consumerSecret == r.consumerSecret
  {
    GetPut(r.params, "oauth_verifier", x, k);
    GetPut(r.params, "oauth_consumer_key", x, k);
    GetPut(r.params, "oauth_token", x, k);
    hide Put, Get;
  }

  /** A PIN that is set and cleared leaves the parameters as they were, if there was none before. */
  lemma PinIsUndone(r: Requester, pin: string)
    requires Sorted(r.params)
    ensures r.SetPinNumber(pin).ClearPinNumber() == r <==> Get(r.params, "oauth_verifier").None?
  {
    var k := "oauth_verifier";
    GetErase(Put(r.params, k, pin), k, k);
    if Get(r.params, k).None? { EraseAgain(r.params, k, pin); }
  }

  /** A status update leaves no status behind and changes nothing but nonce, time and signature. */
  lemma {:induction false} StatusIsTransient(
      r: Requester, h: Hmac, status: string, uri: string, nonce: string, time: string, k: string)
    requires k != "oauth_nonce" && k != "oauth_timestamp" && k != "oauth_signature"
    ensures var u := Updated(r, h, status, uri, nonce, time);
      Get(u.params, k) == (if k == "status" then None else Get(r.params, k)) &&
      u.consumerSecret == r.consumerSecret && u.tokenSecret == r.tokenSecret && u.reqUri == uri
  {
    var r1 := r.With("status", status);
    PreparedNotEmpty(r1, uri, nonce, time);
    var p := r1.Prepare(uri, nonce, time);
    var s := SignatureOf(h, p, uri, "POST");
    GetPut(p.params, "oauth_signature", s, k);
    GetErase(Put(p.params, "oauth_signature", s), "status", k);
    PreparedGet(r1, uri, nonce, time, k);
    GetPut(r.params, "status", status, k);
    hide Put, Erase, Get, SignatureOf;
  }

  /** Credentials set in either order are both there, each under its own name with its own secret. */
  lemma {:induction false} CredentialsKept(
      r: Requester, key: string, secret: string, token: string, tokenSecret: string)
    ensures var a := r.SetConsumer(key, secret).SetToken(token, tokenSecret);
      Get(a.params, "oauth_consumer_key") == Some(key) && Get(a.params, "oauth_token") == Some(token) &&
      a.consumerSecret == secret && a.tokenSecret == tokenSecret
    ensures Sorted(r.params) ==>
              (r.SetConsumer(key, secret).SetToken(token, tokenSecret)
               == r.SetToken(token, tokenSecret).SetConsumer(key, secret))
  {
    var c, t := "oauth_consumer_key", "oauth_token";
    assert c[6] == 'c' && t[6] == 't';
    hide Put, Get, Sorted;
    PutsCommute(r.params, c, key, t, token);
  }

  lemma PutsCommute(ps: seq<Pair>, k: string, v: string, k': string, v': string)
    requires k != k'
    ensures var a := Put(Put(ps, k, v), k', v');
      Get(a, k) == Some(v) && Get(a, k') == Some(v') && (Sorted(ps) ==> a == Put(Put(ps, k', v'), k, v))
  {
    var a, b := Put(Put(ps, k, v), k', v'), Put(Put(ps, k', v'), k, v);
    forall x
      ensures Get(a, x) == if x == k' then Some(v') else if x == k then Some(v) else Get(ps, x)
      ensures Get(b, x) == Get(a, x)
    {
      GetPut(ps, k, v, x);
      GetPut(Put(ps, k, v), k', v', x);
      GetPut(ps, k', v', x);
      GetPut(Put(ps, k', v'), k, v, x);
    }
    if Sorted(ps) {
      PutSorted(ps, k, v);
      PutSorted(Put(ps, k, v), k', v');
      PutSorted(ps, k', v');
      PutSorted(Put(ps, k', v'), k, v);
      SameLookups(a, b);
    }
  }
}
