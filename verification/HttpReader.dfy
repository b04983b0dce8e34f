/**
 The response reader: a buffer, one pending asynchronous read and the handlers that run when that
 read completes. `Reader` and its steps are the specification; `HttpClient` is the object that
 consumes its buffer in place and is proved to take exactly those steps.
 */
module HttpReader {
  import opened Text
  import opened HttpParse

  datatype Response = Response(head: Head, data: string)

  const FRESH: Response := Response(Head(0, "", map[]), "")

  /** The read the connection is waiting for. `target` is the buffer length at which a
      `transfer_at_least` read completes; `Idle` means that nothing was asked for again. */
  datatype Pending =
    | ReadHead
    | ReadPlain(length: nat, target: nat)
    | ReadSize
    | ReadBody(size: nat, target: nat)
    | ReadTrailer
    | Idle

  /** `consumed` (all bytes taken off the buffer) and `calls` (the response of each handler call)
      are history. */
  datatype Reader = Reader(consumed: string, sb: string, pending: Pending, res: Response, calls: seq<Response>)
  {
    predicate Valid() {
      match pending
      case ReadPlain(length, target) => length <= target
      case ReadBody(size, target) => target == size + 2
      case _ => true
    }

    /** Whether the pending read completes with what is buffered. */
    predicate Enabled() {
      match pending
      case ReadHead => Contains(sb, EOL2)
      case ReadPlain(_, target) => |sb| >= target
      case ReadSize => Contains(sb, CRLF)
      case ReadBody(_, target) => |sb| >= target
      case ReadTrailer => Contains(sb, EOL2)
      case Idle => false
    }

    function Consume(n: nat): Reader
      requires n <= |sb|
    {
      this.(consumed := consumed + sb[..n], sb := sb[n..])
    }

    function Wait(p: Pending): Reader { this.(pending := p) }

    function Call(data: string): Reader {
      var r := Response(res.head, data);
      this.(res := r, calls := calls + [r])
    }

    function Arrive(bytes: string): Reader { this.(sb := sb + bytes) }

    function StartRead(): Reader { this.(res := FRESH, pending := ReadHead) }

    function HeaderReadComplete(): Reader {
      if sb == "" then Wait(Idle)
      else match ParseHeader(sb)
        case Match(head, rest) =>
          var r := Consume(|sb| - |rest|).(res := Response(head, res.data));
          if Lookup(head.fields, "Transfer-Encoding", "") == "chunked" then r.Wait(ReadSize)
          else (
            match LexicalSize(Lookup(head.fields, "Content-Length", "0"))
            case None => r.Wait(Idle)
            case Some(length) => r.Wait(ReadPlain(length, PlainTarget(|r.sb|, length)))
          )
        case _ => Wait(Idle)
    }

    function PlainBodyReadComplete(length: nat): Reader
      requires length <= |sb|
    {
      if sb == "" then Wait(Idle) else Consume(length).Call(sb[..length]).StartRead()
    }

    function ChunkSizeReadComplete(): Reader {
      if sb == "" then Wait(Idle)
      else if |sb| <= 2 then this
      else match ParseChunkSize(sb)
        case Match(size, rest) =>
          var r := Consume(|sb| - |rest|);
          if size + 2 > |r.sb| then r.Wait(ReadBody(size, size + 2)) else r.ChunkBodyReadComplete(size)
        case _ => Wait(Idle)
    }

    function ChunkBodyReadComplete(size: nat): Reader
      requires sb == "" || size == 0 || size + 2 <= |sb|
    {
      if sb == "" then Wait(Idle)
      else if size == 0 then Wait(ReadTrailer)
      else Consume(size + 2).Call(sb[..size + 2]).Wait(ReadSize)
    }

    function LastChunkReadComplete(): Reader {
      if sb == "" then Wait(Idle) else StartRead()
    }

    /** The handler bound to the pending read. */
    function Complete(): (r: Reader)
      requires Valid() && Enabled()
      ensures r.Valid()
    {
      hide ParseHeader, ParseChunkSize;
      match pending
      case ReadHead => HeaderReadComplete()
      case ReadPlain(length, _) => PlainBodyReadComplete(length)
      case ReadSize => ChunkSizeReadComplete()
      case ReadBody(size, _) => ChunkBodyReadComplete(size)
      case ReadTrailer => LastChunkReadComplete()
    }
  }

  /** `map_get_or`. */
  function Lookup(m: map<string, string>, k: string, v: string): string {
    if k in m then m[k] else v
  }

  /** `length - buffer_size` is a `size_t` subtraction: with more buffered than announced it wraps and
      the read waits for almost 2^64 further bytes. */
  function PlainTarget(buffered: nat, length: nat): (target: nat)
    requires length < TWO64
    ensures length <= target
    ensures buffered <= length ==> target == length
    ensures length < buffered < TWO64 ==> target == length + TWO64
  {
    WrappedDifference(buffered, length);
    buffered + (length - buffered) % TWO64
  }

  lemma WrappedDifference(buffered: nat, length: nat)
    requires length < TWO64
    ensures buffered <= length ==> (length - buffered) % TWO64 == length - buffered
    ensures length < buffered < TWO64 ==> (length - buffered) % TWO64 == length - buffered + TWO64
    ensures (length - buffered) % TWO64 >= 0
  {}

  const START: Reader := Reader("", "", ReadHead, FRESH, [])

  /** What can happen to the reader: bytes arrive, or the pending read completes. */
  datatype Event = Arrives(bytes: string) | Completes

  function Received(es: seq<Event>): string {
    if es == [] then ""
    else Received(es[..|es| - 1]) + (if es[|es| - 1].Arrives? then es[|es| - 1].bytes else "")
  }

  /** Where a run ends: arrivals at any time, completions only when they are enabled; `None` when the
      events are no run. */
  function Run(es: seq<Event>): (r: Option<Reader>)
    ensures r.Some? ==> r.value.Valid()
  {
    if es == [] then Some(START)
    else match Run(es[..|es| - 1])
      case None => None
      case Some(r) => Step(r, es[|es| - 1])
  }

  function Step(r: Reader, e: Event): (r': Option<Reader>)
    requires r.Valid()
    ensures r'.Some? ==> r'.value.Valid()
  {
    match e
    case Arrives(bytes) => Some(r.Arrive(bytes))
    case Completes =>
      hide Reader.Enabled;
      if r.Enabled() then Some(r.Complete()) else None
  }

  predicate IsRun(es: seq<Event>) { Run(es).Some? }

  function After(es: seq<Event>): (r: Reader)
    requires IsRun(es)
    ensures r.Valid()
  {
    Run(es).value
  }

  // ----- Properties of every run, whatever the bytes are

  /** Whenever a head is awaited the response is a fresh one: no status, no fields, no data. */
  lemma {:induction false} FreshWhileWaiting(es: seq<Event>)
    requires IsRun(es) && After(es).pending.ReadHead?
    ensures After(es).res == Response(Head(0, "", map[]), "")
  {
    if es != [] {
      var r := After(es[..|es| - 1]);
      hide ParseHeader, ParseChunkSize, Contains, LexicalSize, PlainTarget;
      if es[|es| - 1].Arrives? { FreshWhileWaiting(es[..|es| - 1]); }
    }
  }

  /** No byte is lost, duplicated or reordered on its way through the buffer. */
  lemma {:induction false} Conservation(es: seq<Event>)
    requires IsRun(es)
    ensures After(es).consumed + After(es).sb == Received(es)
  {
    if es != [] {
      var front := es[..|es| - 1];
      Conservation(front);
      var r := After(front);
      match es[|es| - 1]
      case Arrives(bytes) =>
        Assoc(r.consumed, r.sb, bytes);
      case Completes =>
        CompleteConserves(r);
    }
  }

  lemma ConsumeConserves(r: Reader, n: nat)
    requires n <= |r.sb|
    ensures r.Consume(n).consumed + r.Consume(n).sb == r.consumed + r.sb
  {
    assert r.sb == r.sb[..n] + r.sb[n..];
    Assoc(r.consumed, r.sb[..n], r.sb[n..]);
  }

  lemma {:induction false} CompleteConserves(r: Reader)
    requires r.Valid() && r.Enabled()
    ensures r.Complete().consumed + r.Complete().sb == r.consumed + r.sb
  {
    hide ParseHeader, ParseChunkSize;
    match r.pending
    case ReadHead =>
      if ParseHeader(r.sb).Match? { ConsumeConserves(r, |r.sb| - |ParseHeader(r.sb).rest|); }
    case ReadPlain(length, _) =>
      ConsumeConserves(r, length);
    case ReadSize =>
      SizeConserves(r);
    case ReadBody(size, _) =>
      ConsumeConserves(r, size + 2);
    case ReadTrailer =>
  }

  lemma {:induction false} SizeConserves(r: Reader)
    ensures r.ChunkSizeReadComplete().consumed + r.ChunkSizeReadComplete().sb == r.consumed + r.sb
  {
    hide ParseChunkSize;
    var p := ParseChunkSize(r.sb);
    if p.Match? {
      var n := |r.sb| - |p.rest|;
      ConsumeConserves(r, n);
      if p.value + 2 <= |r.Consume(n).sb| { ConsumeConserves(r.Consume(n), p.value + 2); }
    }
  }

  function Phase(p: Pending): nat {
    match p
    case ReadSize => 4
    case ReadBody(_, _) => 3
    case ReadTrailer => 2
    case ReadPlain(_, _) => 2
    case ReadHead => 1
    case Idle => 0
  }

  /** The retry of the size line: the buffer is a bare CRLF, which the read finds again at once. */
  predicate Retries(r: Reader) { r.pending.ReadSize? && r.sb == CRLF }

  predicate Below(a: Reader, b: Reader) {
    |a.sb| < |b.sb| || (|a.sb| == |b.sb| && Phase(a.pending) < Phase(b.pending))
  }

  /** A completion makes progress (fewer buffered bytes, or as many and an earlier phase)
      exactly when it is not that retry; the retry changes nothing at all. */
  lemma {:induction false} CompleteDecreases(r: Reader)
    requires r.Valid() && r.Enabled()
    ensures Below(r.Complete(), r) <==> !Retries(r)
    ensures Retries(r) ==> r.Complete() == r && r.Complete().Enabled()
  {
    hide ParseHeader, ParseChunkSize, LexicalSize, PlainTarget;
    match r.pending
    case ReadSize => ShortSizeBuffer(r.sb);
    case _ =>
  }

  lemma ShortSizeBuffer(sb: string)
    requires Contains(sb, CRLF)
    ensures |sb| <= 2 ==> sb == CRLF
  {
    var i :| 0 <= i <= |sb| && At(sb, i, CRLF);
    assert |sb| <= 2 ==> i == 0 && sb == sb[0..2];
  }

  /** `n` completions with nothing arriving in between; `None` when fewer are possible. */
  function Drain(r: Reader, n: nat): Option<Reader>
    requires r.Valid()
    decreases n
  {
    if n == 0 then Some(r)
    else match Step(r, Completes)
      case None => None
      case Some(r') => Drain(r', n - 1)
  }

  predicate RetryAfter(r: Reader, k: nat)
    requires r.Valid()
  {
    Drain(r, k).Some? && Retries(Drain(r, k).value)
  }

  /** Between two arrivals at most `5 * |sb| + phase` completions run, unless the retry is met. */
  lemma {:induction false} DrainBounded(r: Reader, n: nat)
    requires r.Valid() && Drain(r, n).Some?
    ensures n <= 5 * |r.sb| + Phase(r.pending)
         || exists k | 0 <= k < n :: RetryAfter(r, k)
    decreases n
  {
    hide Reader.Complete, Reader.Enabled;
    if n > 0 {
      if Retries(r) {
        assert RetryAfter(r, 0);
      } else {
        CompleteDecreases(r);
        var r' := r.Complete();
        DrainBounded(r', n - 1);
        if k :| 0 <= k < n - 1 && RetryAfter(r', k) {
          assert Drain(r, k + 1) == Drain(r', k);
          assert RetryAfter(r, k + 1);
        }
      }
    }
  }

  // ----- The object

  class HttpClient {
    var sb: string
    var pending: Pending
    var res: Response
    ghost var consumed: string
    ghost var calls: seq<Response>

    ghost function View(): Reader
      reads this
    {
      Reader(consumed, sb, pending, res, calls)
    }

    constructor ()
      ensures View() == START
    {
      sb, pending, res, consumed, calls := "", ReadHead, FRESH, "", [];
    }

    method Consume(n: nat)
      requires n <= |sb|
      modifies this`sb, this`consumed
      ensures View() == old(View()).Consume(n)
    {
      consumed := consumed + sb[..n];
      sb := sb[n..];
    }

    /** The call of the user's handler with the response as it is now. */
    method Handler()
      modifies this`calls
      ensures View() == old(View()).(calls := old(calls) + [res])
    {
      calls := calls + [res];
    }

    method Arrive(bytes: string)
      modifies this`sb
      ensures View() == old(View()).Arrive(bytes)
    {
      sb := sb + bytes;
    }

    method StartRead()
      modifies this
      ensures View() == old(View()).StartRead()
    {
      res := FRESH;
      pending := ReadHead;
    }

    method HeaderReadComplete()
      modifies this
      ensures View() == old(View()).HeaderReadComplete()
    {
      hide ParseHeader, LexicalSize, PlainTarget;
      if |sb| == 0 {
        pending := Idle;
        return;
      }
      var p := ParseHeader(sb);
      if !p.Match? {
        pending := Idle;
        return;
      }
      Consume(|sb| - |p.rest|);
      res := res.(head := p.value);
      var encoding := Lookup(res.head.fields, "Transfer-Encoding", "");
      if encoding == "chunked" {
        pending := ReadSize;
      } else {
        var length := LexicalSize(Lookup(res.head.fields, "Content-Length", "0"));
        if length.None? {
          pending := Idle;
        } else {
          pending := ReadPlain(length.value, PlainTarget(|sb|, length.value));
        }
      }
    }

    method PlainBodyReadComplete(length: nat)
      requires length <= |sb|
      modifies this
      ensures View() == old(View()).PlainBodyReadComplete(length)
    {
      if |sb| == 0 {
        pending := Idle;
        return;
      }
      res := res.(data := sb[..length]);
      Consume(|res.data|);
      Handler();
      StartRead();
    }

    method ChunkSizeReadComplete()
      modifies this
      ensures View() == old(View()).ChunkSizeReadComplete()
    {
      hide ParseChunkSize;
      if |sb| == 0 {
        pending := Idle;
      } else if |sb| <= 2 {
        pending := pending;
      } else {
        var p := ParseChunkSize(sb);
        if !p.Match? {
          pending := Idle;
          return;
        }
        Consume(|sb| - |p.rest|);
        var size, buffered := p.value, |sb|;
        if size + 2 > buffered {
          pending := ReadBody(size, buffered + (size + 2 - buffered));
        } else {
          ChunkBodyReadComplete(size);
        }
      }
    }

    /** The source asserts that `size + 2` bytes are buffered; here that is the precondition. */
    method ChunkBodyReadComplete(size: nat)
      requires sb == "" || size == 0 || size + 2 <= |sb|
      modifies this
      ensures View() == old(View()).ChunkBodyReadComplete(size)
    {
      if |sb| == 0 {
        pending := Idle;
        return;
      }
      if size == 0 {
        pending := ReadTrailer;
      } else {
        res := res.(data := sb[..size + 2]);
        Consume(|res.data|);
        Handler();
        pending := ReadSize;
      }
    }

    method LastChunkReadComplete()
      modifies this
      ensures View() == old(View()).LastChunkReadComplete()
    {
      if |sb| == 0 {
        pending := Idle;
        return;
      }
      StartRead();
    }

    /** One completion as the event loop dispatches it. */
    method Complete()
      requires View().Valid() && View().Enabled()
      modifies this
      ensures View() == old(View()).Complete()
    {
      match pending
      case ReadHead => HeaderReadComplete();
      case ReadPlain(length, _) => PlainBodyReadComplete(length);
      case ReadSize => ChunkSizeReadComplete();
      case ReadBody(size, _) => ChunkBodyReadComplete(size);
      case ReadTrailer => LastChunkReadComplete();
    }
  }
}
