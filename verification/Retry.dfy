/**
 HTTP requests that are repeated, with exponential backoff, over a transport that may fail in any
 way at all on each attempt.
 */
module Retry {
  import opened Bytes
  import Bits

  const HTTP_OK := 200
  const HTTP_BAD_REQUEST := 400
  const HTTP_NOT_FOUND := 404
  const HTTP_TIMEOUT := 408
  const HTTP_TOO_MANY_REQUESTS := 429
  const HTTP_SERVER_ERROR := 500

  const MAX_JITTER: nat := 5000  // milliseconds

  /** One jitter draw, in milliseconds. */
  type jitter = j: nat | j <= MAX_JITTER

  /**
   All that one attempt brings: the chunks handed to the callback, whether the transport reports
   success, the status, the Retry-After seconds, and the jitter drawn should there be a pause.
   */
  datatype Attempt = Attempt(chunks: seq<bytes>, curlOk: bool, status: int, retryAfter: nat, jitter: jitter)

  /** What a transport brings, attempt by attempt. */
  type Stream = int -> Attempt

  /** The two families of requests: to the attestation service, and to the instance metadata service. */
  datatype Service = Attestation | Metadata

  datatype Limits = Limits(service: Service, maxRetries: nat, base: nat)

  datatype HttpError =
    | CurlFailed
    | AttestationFailed(body: bytes)
    | ExceededRetries(body: bytes)
    | RequestFailed(body: bytes)
    | EmptyResponse
    | EmptyRequestBody

  /** What a request came to, after so many retries and the pauses, in milliseconds, before each. */
  datatype Outcome = Outcome(result: Result<bytes, HttpError>, retries: nat, pauses: seq<nat>)

  // ---------- one attempt ----------

  function Concat(chunks: seq<bytes>): bytes {
    if chunks == [] then [] else Concat(chunks[..|chunks| - 1]) + chunks[|chunks| - 1]
  }

  predicate Retryable(service: Service, a: Attempt) {
    && a.curlOk
    && (|| a.status == HTTP_TOO_MANY_REQUESTS
        || a.status >= HTTP_SERVER_ERROR
        || a.status == (if service.Attestation? then HTTP_TIMEOUT else HTTP_NOT_FOUND))
  }

  /** What an attempt means when it is the last. */
  function Judge(service: Service, a: Attempt): Result<bytes, HttpError> {
    var body := Concat(a.chunks);
    if !a.curlOk then
      Err(CurlFailed)
    else if a.status == HTTP_OK then
      if service.Metadata? && body == [] then Err(EmptyResponse) else Ok(body)
    else if Retryable(service, a) then
      Err(ExceededRetries(body))
    else if service.Attestation? && a.status == HTTP_BAD_REQUEST then
      Err(AttestationFailed(body))
    else
      Err(RequestFailed(body))
  }

  /** The pause after the failed attempt number k. */
  function Pause(l: Limits, k: nat, a: Attempt): nat {
    var backoff := l.base * Bits.Pow2(k);
    if l.service.Attestation? then
      1000 * (if backoff > a.retryAfter then backoff else a.retryAfter) + a.jitter
    else
      1000 * backoff
  }

  // ---------- a whole request ----------

  /** The first attempt from the given one on that is not followed by another. */
  function LastAttempt(l: Limits, s: Stream, from: nat, k: nat): (r: nat)
    requires k <= l.maxRetries
    ensures k <= r <= l.maxRetries
    ensures forall i :: from + k <= i < from + r ==> Retryable(l.service, s(i))
    ensures r == l.maxRetries || !Retryable(l.service, s(from + r))
    decreases l.maxRetries - k
  {
    if k == l.maxRetries || !Retryable(l.service, s(from + k)) then k else LastAttempt(l, s, from, k + 1)
  }

  function Pauses(l: Limits, s: Stream, from: nat, k: nat): (p: seq<nat>)
    ensures |p| == k
    ensures forall i :: 0 <= i < k ==> p[i] == Pause(l, i, s(from + i))
  {
    if k == 0 then [] else Pauses(l, s, from, k - 1) + [Pause(l, k - 1, s(from + k - 1))]
  }

  function Run(l: Limits, s: Stream, from: nat): Outcome {
    var k := LastAttempt(l, s, from, 0);
    Outcome(Judge(l.service, s(from + k)), k, Pauses(l, s, from, k))
  }

  // ---------- what a request guarantees ----------

  /** The statuses on which each service's request is made again. */
  predicate RepeatsOn(service: Service, status: int) {
    match service
    case Attestation => status == 408 || status == 429 || status >= 500
    case Metadata => status == 404 || status == 429 || status >= 500
  }

  /** An attempt that is worth another one. */
  predicate Repeats(service: Service, a: Attempt) {
    a.curlOk && RepeatsOn(service, a.status)
  }

  lemma RetryableIff(service: Service, a: Attempt)
    ensures Retryable(service, a) <==> Repeats(service, a)
  {
  }

  /** What the attempt that is not followed by another makes of the request, status by status. */
  ghost predicate Concludes(service: Service, a: Attempt, result: Result<bytes, HttpError>) {
    var body := Concat(a.chunks);
    if !a.curlOk then result == Err(CurlFailed)
    else if a.status == 200 then
      (match service
       case Attestation => result == Ok(body)
       case Metadata => result == if |body| == 0 then Err(EmptyResponse) else Ok(body))
    else if RepeatsOn(service, a.status) then result == Err(ExceededRetries(body))
    else if a.status == 400 && service == Attestation then result == Err(AttestationFailed(body))
    else result == Err(RequestFailed(body))
  }

  /** The milliseconds slept after failed attempt number k, counted from 0. */
  ghost predicate IsPause(l: Limits, k: nat, a: Attempt, p: nat) {
    var backoff := l.base * Bits.Pow2(k);
    match l.service
    case Attestation =>
      p == 1000 * (if a.retryAfter > backoff then a.retryAfter else backoff) + a.jitter
    case Metadata => p == 1000 * backoff
  }

  /**
   The whole protocol: another attempt follows exactly when retries are left and the last one is
   worth it; the last one concludes; and what is slept between them.
   */
  ghost predicate IsOutcome(l: Limits, s: Stream, from: nat, o: Outcome) {
    && o.retries <= l.maxRetries
    && (forall i :: from <= i < from + o.retries ==> Repeats(l.service, s(i)))
    && (o.retries < l.maxRetries ==> !Repeats(l.service, s(from + o.retries)))
    && Concludes(l.service, s(from + o.retries), o.result)
    && |o.pauses| == o.retries
    && forall i :: 0 <= i < o.retries ==> IsPause(l, i, s(from + i), o.pauses[i])
  }

  /** A request follows the protocol, which leaves it no choice. */
  lemma OutcomeIff(l: Limits, s: Stream, from: nat, o: Outcome)
    ensures IsOutcome(l, s, from, o) <==> o == Run(l, s, from)
  {
    hide Concat;
    var r := LastAttempt(l, s, from, 0);
    if IsOutcome(l, s, from, o) {
      assert o.retries < r ==> Retryable(l.service, s(from + o.retries));
      assert r < o.retries ==> Repeats(l.service, s(from + r));
      assert o.retries == r;
      assert o.pauses == Pauses(l, s, from, r);
    }
  }

  /** The bodies of the chunks of an attempt, one after the other. */
  lemma {:induction false} ConcatAppend(a: seq<bytes>, b: seq<bytes>)
    ensures Concat(a + b) == Concat(a) + Concat(b)
  {
    if b == [] {
      assert a + b == a;
    } else {
      var front, last := b[..|b| - 1], b[|b| - 1];
      assert (a + b)[..|a + b| - 1] == a + front;
      ConcatAppend(a, front);
      assert Concat(a + b) == Concat(a + front) + last && Concat(b) == Concat(front) + last;
    }
  }

  lemma ConcatOne(chunk: bytes)
    ensures Concat([chunk]) == chunk && Concat([]) == []
  {
    var none: seq<bytes> := [];
    assert [chunk][..0] == none;
    assert Concat(none) + chunk == chunk;
  }

  /** A 200 with this body is reached within the allowed retries, after nothing but failures worth a retry. */
  ghost predicate Reached(l: Limits, s: Stream, from: nat, k: nat, body: bytes) {
    && k <= l.maxRetries
    && (forall i :: from <= i < from + k ==> Repeats(l.service, s(i)))
    && s(from + k).curlOk
    && s(from + k).status == 200
    && body == Concat(s(from + k).chunks)
    && (l.service.Metadata? ==> body != [])
  }

  /**
   A request succeeds with a body exactly when a 200 with that body comes within the allowed
   retries, after nothing but 408, 429 and server errors (404 in place of 408 for metadata); the
   body is that attempt's chunks alone, whatever the failed ones delivered.
   */
  lemma SucceedsIff(l: Limits, s: Stream, from: nat, body: bytes)
    ensures Run(l, s, from).result == Ok(body) <==> exists k :: Reached(l, s, from, k, body)
  {
    hide Concat;
    var r := LastAttempt(l, s, from, 0);
    if Run(l, s, from).result == Ok(body) {
      assert Reached(l, s, from, r, body);
    }
    if k :| Reached(l, s, from, k, body) {
      assert !Retryable(l.service, s(from + k));
      assert k < r ==> Retryable(l.service, s(from + k));
      assert r < k ==> Repeats(l.service, s(from + r));
    }
  }

  /** A request gives up for too many retries exactly when every attempt it may make is worth another. */
  lemma ExceedsIff(l: Limits, s: Stream, from: nat)
    ensures
      (exists body :: Run(l, s, from).result == Err(ExceededRetries(body))) <==>
      forall i :: from <= i <= from + l.maxRetries ==> Repeats(l.service, s(i))
  {
    hide Concat;
    var r := LastAttempt(l, s, from, 0);
    if forall i :: from <= i <= from + l.maxRetries ==> Repeats(l.service, s(i)) {
      assert Repeats(l.service, s(from + r));
      assert Run(l, s, from).result == Err(ExceededRetries(Concat(s(from + r).chunks)));
    }
  }

  /** The pauses of the shipped limits, when nothing asks for more and no jitter is drawn. */
  lemma ShippedPauses(s: Stream, from: nat, maa: Limits, imds: Limits)
    requires maa == Limits(Attestation, 3, 5) && imds == Limits(Metadata, 3, 30)
    requires forall i :: s(i).retryAfter == 0 && s(i).jitter == 0
    ensures Run(maa, s, from).retries == 3 ==> Run(maa, s, from).pauses == [5000, 10000, 20000]
    ensures Run(imds, s, from).retries == 3 ==> Run(imds, s, from).pauses == [30000, 60000, 120000]
  {
    hide Concat, Judge;
    assert Bits.Pow2(0) == 1 && Bits.Pow2(1) == 2 && Bits.Pow2(2) == 4;
  }

  /** Nothing beyond the attempts made, and no body of a failed attempt, bears on the result. */
  lemma OnlyAttemptsMatter(l: Limits, s: Stream, t: Stream, from: nat)
    requires
      var k := Run(l, s, from).retries;
      && t(from + k) == s(from + k)
      && forall i :: from <= i < from + k ==> exists c :: t(i) == s(i).(chunks := c)
    ensures Run(l, t, from) == Run(l, s, from)
  {
    hide Concat;
    var k := LastAttempt(l, s, from, 0);
    assert forall i :: from <= i < from + k ==> Retryable(l.service, t(i));
    var r := LastAttempt(l, t, from, 0);
    assert k < r ==> Retryable(l.service, t(from + k));
    assert r < k ==> Retryable(l.service, t(from + r));
    forall i | 0 <= i < k ensures Pauses(l, t, from, k)[i] == Pauses(l, s, from, k)[i] {
      assert t(from + i) == s(from + i).(chunks := t(from + i).chunks);
    }
  }

  // ---------- total backoff ----------

  function Sum(p: seq<nat>): nat {
    if p == [] then 0 else Sum(p[..|p| - 1]) + p[|p| - 1]
  }

  lemma {:induction false} SumAppend(p: seq<nat>, q: seq<nat>)
    ensures Sum(p + q) == Sum(p) + Sum(q)
  {
    if q == [] {
      assert p + q == p;
    } else {
      assert (p + q)[..|p + q| - 1] == p + q[..|q| - 1];
      SumAppend(p, q[..|q| - 1]);
    }
  }

  /** base * (2^k - 1) seconds, in milliseconds. */
  function Backoff(l: Limits, k: nat): nat {
    1000 * (l.base * (Bits.Pow2(k) - 1))
  }

  /** The backoffs before k retries, each twice the one before, add up to this. */
  lemma BackoffGrows(l: Limits, k: nat)
    ensures Backoff(l, 0) == 0
    ensures Backoff(l, k + 1) == Backoff(l, k) + 1000 * (l.base * Bits.Pow2(k))
  {
    assert l.base * 0 == 0;
    DoubleLess(l.base, Bits.Pow2(k));
  }

  lemma DoubleLess(b: nat, p: nat)
    ensures b * (2 * p - 1) == b * (p - 1) + b * p
  {
  }

  /**
   k retries pause for at least base * (2^k - 1) seconds; without Retry-After, for no more than
   that and the jitter, of which the metadata service has none.
   */
  lemma {:induction false} TotalBackoff(l: Limits, s: Stream, from: nat, k: nat)
    ensures Backoff(l, k) <= Sum(Pauses(l, s, from, k))
    ensures (forall i :: from <= i < from + k ==> s(i).retryAfter == 0) ==>
              Sum(Pauses(l, s, from, k)) <= Backoff(l, k) + MAX_JITTER * k
    ensures l.service.Metadata? ==> Sum(Pauses(l, s, from, k)) == Backoff(l, k)
  {
    hide Pause, Bits.Pow2, Sum, Backoff;
    BackoffGrows(l, if k > 0 then k - 1 else 0);
    SumOneMore([], 0);
    if k > 0 {
      TotalBackoff(l, s, from, k - 1);
      SumOneMore(Pauses(l, s, from, k - 1), Pause(l, k - 1, s(from + k - 1)));
      PauseBounds(l, k - 1, s(from + k - 1));
    }
  }

  lemma SumOneMore(p: seq<nat>, x: nat)
    ensures Sum([]) == 0
    ensures Sum(p + [x]) == Sum(p) + x
  {
    assert (p + [x])[..|p|] == p;
  }

  lemma PauseBounds(l: Limits, k: nat, a: Attempt)
    ensures 1000 * (l.base * Bits.Pow2(k)) <= Pause(l, k, a)
    ensures a.retryAfter == 0 ==> Pause(l, k, a) <= 1000 * (l.base * Bits.Pow2(k)) + MAX_JITTER
    ensures l.service.Metadata? ==> Pause(l, k, a) == 1000 * (l.base * Bits.Pow2(k))
  {
  }

  // ---------- the transport ----------

  /** A string that the callback of a transfer appends to. */
  class ResponseBuffer {
    var text: bytes

    constructor ()
      ensures text == []
    {
      text := [];
    }

    method Append(contents: bytes)
      modifies this
      ensures text == old(text) + contents
    {
      text := text + contents;
    }
  }

  class Transport {
    const stream: Stream
    var next: nat
    ghost var slept: seq<nat>

    constructor (stream: Stream)
      ensures this.stream == stream && next == 0 && slept == []
    {
      this.stream, next, slept := stream, 0, [];
    }

    /** Makes the next attempt, handing its chunks to the callback one by one. */
    method Perform(response: ResponseBuffer) returns (a: Attempt)
      modifies this, response
      ensures next == old(next) + 1 && slept == old(slept)
      ensures a == stream(old(next))
      ensures response.text == old(response.text) + Concat(a.chunks)
    {
      a := stream(next);
      next := next + 1;
      assert a.chunks[..0] == [];
      for i := 0 to |a.chunks|
        invariant next == old(next) + 1 && slept == old(slept)
        invariant response.text == old(response.text) + Concat(a.chunks[..i])
      {
        assert a.chunks[..i + 1][..i] == a.chunks[..i];
        response.Append(a.chunks[i]);
      }
      assert a.chunks[..|a.chunks|] == a.chunks;
    }

    method Sleep(milliseconds: nat)
      modifies this
      ensures next == old(next) && slept == old(slept) + [milliseconds]
    {
      slept := slept + [milliseconds];
    }
  }

  /** The transport after a request: as many attempts further, having slept the pauses. */
  twostate predicate Advanced(t: Transport, o: Outcome)
    reads t
  {
    && t.next == old(t.next) + o.retries + 1
    && t.slept == old(t.slept) + o.pauses
  }

  /** Where a request stands in its loop: so many retryable failures behind it, the buffer clear. */
  twostate predicate Underway(l: Limits, t: Transport, new response: ResponseBuffer, retries: nat)
    reads t, response
  {
    && retries <= l.maxRetries
    && t.next == old(t.next) + retries
    && response.text == []
    && t.slept == old(t.slept) + Pauses(l, t.stream, old(t.next), retries)
    && AllRetryable(l.service, t.stream, old(t.next), retries)
  }

  ghost predicate AllRetryable(service: Service, s: Stream, from: nat, k: nat) {
    forall i :: from <= i < from + k ==> Retryable(service, s(i))
  }

  lemma OneRetryMore(service: Service, s: Stream, from: nat, k: nat)
    requires AllRetryable(service, s, from, k) && Retryable(service, s(from + k))
    ensures AllRetryable(service, s, from, k + 1)
  {
  }

  lemma OnePauseMore(l: Limits, s: Stream, from: nat, k: nat)
    ensures Pauses(l, s, from, k + 1) == Pauses(l, s, from, k) + [Pause(l, k, s(from + k))]
  {
  }

  lemma Started(l: Limits, s: Stream, from: nat)
    ensures Pauses(l, s, from, 0) == [] && AllRetryable(l.service, s, from, 0)
  {
  }

  lemma Settled(l: Limits, s: Stream, from: nat, k: nat)
    requires k <= l.maxRetries && AllRetryable(l.service, s, from, k)
    requires k == l.maxRetries || !Retryable(l.service, s(from + k))
    ensures Run(l, s, from) == Outcome(Judge(l.service, s(from + k)), k, Pauses(l, s, from, k))
  {
    hide Judge, Pauses;
    var r := LastAttempt(l, s, from, 0);
    assert k < r ==> Retryable(l.service, s(from + k));
    assert r < k ==> Retryable(l.service, s(from + r));
  }

  method SendRequest(t: Transport, maxRetries: nat, base: nat)
    returns (result: Result<bytes, HttpError>, ghost outcome: Outcome)
    modifies t
    ensures outcome == Run(Limits(Attestation, maxRetries, base), t.stream, old(t.next))
    ensures IsOutcome(Limits(Attestation, maxRetries, base), t.stream, old(t.next), outcome)
    ensures result == outcome.result
    ensures Advanced(t, outcome)
  {
    hide Concat, Pauses, Bits.Pow2, AllRetryable, Run, IsOutcome;
    ghost var l := Limits(Attestation, maxRetries, base);
    ghost var s, from := t.stream, t.next;
    OutcomeIff(l, s, from, Run(l, s, from));
    var response := new ResponseBuffer();
    var retries := 0;
    result := Err(CurlFailed);
    Started(l, s, from);
    while true
      invariant Underway(l, t, response, retries)
      invariant result == Err(CurlFailed)
      decreases maxRetries - retries
    {
      var a := t.Perform(response);
      assert [] + Concat(a.chunks) == Concat(a.chunks);
      if !a.curlOk {
        break;
      }
      if a.status == HTTP_OK {
        result := Ok(response.text);
        break;
      } else if a.status == HTTP_BAD_REQUEST {
        result := Err(AttestationFailed(response.text));
        break;
      } else if a.status == HTTP_TOO_MANY_REQUESTS || a.status == HTTP_TIMEOUT || a.status >= HTTP_SERVER_ERROR {
        if retries == maxRetries {
          result := Err(ExceededRetries(response.text));
          break;
        }
        var backoff := base * Bits.Pow2(retries);
        OnePauseMore(l, s, from, retries);
        OneRetryMore(l.service, s, from, retries);
        retries := retries + 1;
        t.Sleep((if backoff > a.retryAfter then backoff else a.retryAfter) * 1000 + a.jitter);
        response.text := [];
      } else {
        result := Err(RequestFailed(response.text));
        break;
      }
    }
    Settled(l, s, from, retries);
    outcome := Run(l, s, from);
  }

  /** A verb; a POST must have something to post. */
  datatype Verb = Get | Post

  method InvokeHttpImdsRequest(t: Transport, verb: Verb, requestBody: bytes, maxRetries: nat, base: nat)
    returns (result: Result<bytes, HttpError>, ghost outcome: Outcome)
    modifies t
    ensures verb.Post? && requestBody == [] ==>
              result == Err(EmptyRequestBody) && t.next == old(t.next) && t.slept == old(t.slept)
    ensures !(verb.Post? && requestBody == []) ==>
              && outcome == Run(Limits(Metadata, maxRetries, base), t.stream, old(t.next))
              && IsOutcome(Limits(Metadata, maxRetries, base), t.stream, old(t.next), outcome)
              && result == outcome.result
              && Advanced(t, outcome)
  {
    hide Concat, Pauses, Bits.Pow2, AllRetryable, Run, IsOutcome;
    ghost var l := Limits(Metadata, maxRetries, base);
    ghost var s, from := t.stream, t.next;
    OutcomeIff(l, s, from, Run(l, s, from));
    outcome := Run(l, s, from);
    if verb.Post? && requestBody == [] {
      return Err(EmptyRequestBody), outcome;
    }
    var response := new ResponseBuffer();
    var retries := 0;
    result := Err(CurlFailed);
    Started(l, s, from);
    while true
      invariant Underway(l, t, response, retries)
      invariant result == Err(CurlFailed)
      decreases maxRetries - retries
    {
      var a := t.Perform(response);
      assert [] + Concat(a.chunks) == Concat(a.chunks);
      if !a.curlOk {
        break;
      }
      if a.status == HTTP_OK {
        result := if |response.text| == 0 then Err(EmptyResponse) else Ok(response.text);
        break;
      } else if a.status == HTTP_NOT_FOUND || a.status == HTTP_TOO_MANY_REQUESTS || a.status >= HTTP_SERVER_ERROR {
        if retries == maxRetries {
          result := Err(ExceededRetries(response.text));
          break;
        }
        OnePauseMore(l, s, from, retries);
        OneRetryMore(l.service, s, from, retries);
        t.Sleep(1000 * (base * Bits.Pow2(retries)));
        retries := retries + 1;
        response.text := [];
      } else {
        result := Err(RequestFailed(response.text));
        break;
      }
    }
    Settled(l, s, from, retries);
  }

  /** The text of a success, and nothing for any failure. */
  function TextOf(r: Result<bytes, HttpError>): bytes {
    if r.Ok? then r.value else []
  }

  /** The sibling that returns a string: what the other returns, with every failure the empty string. */
  method InvokeHttpRequest(t: Transport, url: bytes, verb: Verb, requestBody: bytes, maxRetries: nat, base: nat)
    returns (httpResponse: bytes, ghost outcome: Outcome)
    modifies t
    ensures url == [] || (verb.Post? && requestBody == []) ==>
              httpResponse == [] && t.next == old(t.next) && t.slept == old(t.slept)
    ensures !(url == [] || (verb.Post? && requestBody == [])) ==>
              && outcome == Run(Limits(Metadata, maxRetries, base), t.stream, old(t.next))
              && IsOutcome(Limits(Metadata, maxRetries, base), t.stream, old(t.next), outcome)
              && httpResponse == TextOf(outcome.result)
              && Advanced(t, outcome)
  {
    hide Concat, Pauses, Bits.Pow2, AllRetryable, Run, IsOutcome;
    ghost var l := Limits(Metadata, maxRetries, base);
    ghost var s, from := t.stream, t.next;
    OutcomeIff(l, s, from, Run(l, s, from));
    outcome := Run(l, s, from);
    if url == [] || (verb.Post? && requestBody == []) {
      return [], outcome;
    }
    var response := new ResponseBuffer();
    var retries := 0;
    httpResponse := [];
    Started(l, s, from);
    while true
      invariant Underway(l, t, response, retries)
      invariant httpResponse == []
      decreases maxRetries - retries
    {
      var a := t.Perform(response);
      assert [] + Concat(a.chunks) == Concat(a.chunks);
      if !a.curlOk {
        break;
      }
      if a.status == HTTP_OK {
        httpResponse := response.text;
        break;
      } else if a.status == HTTP_NOT_FOUND || a.status == HTTP_TOO_MANY_REQUESTS || a.status >= HTTP_SERVER_ERROR {
        if retries == maxRetries {
          break;
        }
        OnePauseMore(l, s, from, retries);
        OneRetryMore(l.service, s, from, retries);
        t.Sleep(1000 * (base * Bits.Pow2(retries)));
        retries := retries + 1;
        response.text := [];
      } else {
        break;
      }
    }
    Settled(l, s, from, retries);
  }
}
