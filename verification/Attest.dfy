/**
 Attestation: a round sends a request, which retries on its own, parses the answer and decrypts the
 token in it; a token that does not decrypt starts another round.
 */
module Attest {
  import opened Bytes
  import opened Retry
  import Base64
  import Bits

  const ROUND_BASE: nat := 5  // seconds

  /** A response is no JSON text, holds a token, or makes the JSON library throw. */
  datatype Parsing = Unparsable | Token(token: bytes) | ParsingThrows

  /** A token does not decrypt, does, or makes decryption throw. */
  datatype Decryption = NotDecrypted | Plain(token: bytes) | DecryptionThrows

  /**
   What the rounds call into: the payload made from the parameters, the parsing of a response, and
   the opening of a decoded token, which may fail in one round and work in the next.
   */
  datatype Client = Client(
    payload: Option<bytes>,
    parse: bytes -> Parsing,
    open: (nat, bytes) -> Decryption,
    maxRounds: nat,
    maxRetries: nat,
    base: nat)
  {
    function Requests(): Limits {
      Limits(Attestation, maxRetries, base)
    }
  }

  datatype AttestError =
    | PayloadFailed
    | HttpFailed(error: HttpError)
    | ParseFailed
    | DecryptionFailed
    | ProcessEnds  // an exception in a function that must not throw: there is no return

  /** An empty token fails; one that is no base64url text throws, with nothing there to catch it. */
  function DecryptMaaToken(c: Client, round: nat, token: bytes): Decryption {
    if token == [] then
      NotDecrypted
    else
      match Base64.UrlDecode(token)
      case Err(_) => DecryptionThrows
      case Ok(decoded) => c.open(round, decoded)
  }

  // ---------- one round ----------

  /** The result of the given round when its request starts at the given attempt. */
  function RoundResult(c: Client, s: Stream, start: nat, round: nat): Result<bytes, AttestError> {
    var http := Run(c.Requests(), s, start).result;
    if http.Err? then
      Err(HttpFailed(http.error))
    else
      match c.parse(http.value)
      case Unparsable => Err(ParseFailed)
      case ParsingThrows => Err(ProcessEnds)
      case Token(token) =>
        match DecryptMaaToken(c, round, token)
        case NotDecrypted => Err(DecryptionFailed)
        case DecryptionThrows => Err(ProcessEnds)
        case Plain(plain) => Ok(plain)
  }

  /** The attempt a round starts with. */
  function Start(c: Client, s: Stream, from: nat, round: nat): (n: nat)
    ensures n >= from + round
    ensures n <= from + round * (c.maxRetries + 1)
  {
    if round == 0 then
      from
    else
      var before := Start(c, s, from, round - 1);
      OneRoundMore(round, c.maxRetries + 1);
      before + Run(c.Requests(), s, before).retries + 1
  }

  lemma OneRoundMore(round: nat, n: nat)
    requires round > 0
    ensures round * n == (round - 1) * n + n
  {
  }

  predicate Undecrypted(c: Client, s: Stream, from: nat, round: int) {
    round >= 0 && RoundResult(c, s, Start(c, s, from, round), round) == Err(DecryptionFailed)
  }

  function LastRound(c: Client, s: Stream, from: nat, round: nat): (r: nat)
    requires round <= c.maxRounds
    ensures round <= r <= c.maxRounds
    ensures forall i :: round <= i < r ==> Undecrypted(c, s, from, i)
    ensures r == c.maxRounds || !Undecrypted(c, s, from, r)
    decreases c.maxRounds - round
  {
    hide Undecrypted, Run, Start;
    if round == c.maxRounds || !Undecrypted(c, s, from, round) then
      round
    else
      LastRound(c, s, from, round + 1)
  }

  /** Everything slept before a round starts. */
  function SleptBefore(c: Client, s: Stream, from: nat, round: nat): seq<nat> {
    if round == 0 then
      []
    else
      SleptBefore(c, s, from, round - 1)
      + Run(c.Requests(), s, Start(c, s, from, round - 1)).pauses
      + [1000 * (ROUND_BASE * Bits.Pow2(round - 1))]
  }

  // ---------- what attesting guarantees ----------

  /** What became of attesting: the result, the attempts made, and all that was slept. */
  datatype Final = Final(result: Result<bytes, AttestError>, rounds: nat, sends: nat, slept: seq<nat>)

  function Attested(c: Client, s: Stream, from: nat): (f: Final) {
    if c.payload.None? then
      Final(Err(PayloadFailed), 0, 0, [])
    else
      var r := LastRound(c, s, from, 0);
      Final(
        RoundResult(c, s, Start(c, s, from, r), r),
        r + 1,
        Start(c, s, from, r + 1) - from,
        SleptBefore(c, s, from, r) + Run(c.Requests(), s, Start(c, s, from, r)).pauses)
  }

  // What a round's last attempt carried, in terms of what the rounds call into.

  ghost predicate Arrived(a: Attempt) {
    a.curlOk && a.status == 200
  }

  /** A 200 with a nonempty token that decodes, and opens in that round to this one. */
  ghost predicate OpensTo(c: Client, a: Attempt, round: nat, v: bytes) {
    Arrived(a) &&
    exists token, d ::
      && c.parse(Concat(a.chunks)) == Token(token) && token != []
      && Base64.UrlDecode(token) == Ok(d)
      && c.open(round, d) == Plain(v)
  }

  /** A 200 whose token is empty, or decodes and does not open in that round. */
  ghost predicate StaysShut(c: Client, a: Attempt, round: nat) {
    Arrived(a) &&
    exists token ::
      && c.parse(Concat(a.chunks)) == Token(token)
      && (token == [] || exists d :: Base64.UrlDecode(token) == Ok(d) && c.open(round, d) == NotDecrypted)
  }

  /** A 200 that makes something throw: the parser, the base64 decoder or the opening. */
  ghost predicate MakesThrow(c: Client, a: Attempt, round: nat) {
    Arrived(a) &&
    (c.parse(Concat(a.chunks)) == ParsingThrows ||
     exists token ::
       && c.parse(Concat(a.chunks)) == Token(token) && token != []
       && (Base64.UrlDecode(token).Err?
           || exists d :: Base64.UrlDecode(token) == Ok(d) && c.open(round, d) == DecryptionThrows))
  }

  /** The attempt that ends the request of a round. */
  function LastOf(c: Client, s: Stream, from: nat, round: nat): Attempt {
    var start := Start(c, s, from, round);
    s(start + Run(c.Requests(), s, start).retries)
  }

  /** What a round comes to, result by result. */
  ghost predicate RoundGives(c: Client, s: Stream, from: nat, round: nat, r: Result<bytes, AttestError>) {
    var a := LastOf(c, s, from, round);
    match r
    case Ok(v) => OpensTo(c, a, round, v)
    case Err(HttpFailed(e)) => Run(c.Requests(), s, Start(c, s, from, round)).result == Err(e)
    case Err(ParseFailed) => Arrived(a) && c.parse(Concat(a.chunks)) == Unparsable
    case Err(DecryptionFailed) => StaysShut(c, a, round)
    case Err(ProcessEnds) => MakesThrow(c, a, round)
    case Err(PayloadFailed) => false
  }

  /**
   The first round that does not stay shut gives the result; if all that are allowed do, the last
   one gives its failure to decrypt.
   */
  ghost predicate GivesIn(c: Client, s: Stream, from: nat, round: nat, r: Result<bytes, AttestError>) {
    && round <= c.maxRounds
    && (forall i: nat :: i < round ==> StaysShut(c, LastOf(c, s, from, i), i))
    && RoundGives(c, s, from, round, r)
    && (r == Err(DecryptionFailed) ==> round == c.maxRounds)
  }

  /** A request succeeds exactly when its last attempt is a 200, with the body of that attempt. */
  lemma RequestArrives(l: Limits, s: Stream, from: nat)
    requires l.service.Attestation?
    ensures
      var o := Run(l, s, from);
      && (o.result.Ok? <==> Arrived(s(from + o.retries)))
      && (o.result.Ok? ==> o.result.value == Concat(s(from + o.retries).chunks))
  {
    hide Concat, LastAttempt, Pauses;
  }

  lemma RoundGivesIff(c: Client, s: Stream, from: nat, round: nat, r: Result<bytes, AttestError>)
    ensures RoundGives(c, s, from, round, r) <==> RoundResult(c, s, Start(c, s, from, round), round) == r
  {
    hide Run, Start, Concat, Base64.UrlDecode, Arrived;
    RequestArrives(c.Requests(), s, Start(c, s, from, round));
  }

  /**
   Attesting comes to a result exactly when the payload cannot be made and it is that failure, or
   some allowed round gives it after only rounds that stayed shut.
   */
  lemma AttestedIff(c: Client, s: Stream, from: nat, r: Result<bytes, AttestError>)
    ensures
      Attested(c, s, from).result == r <==>
      if c.payload.None? then r == Err(PayloadFailed) else exists round: nat :: GivesIn(c, s, from, round, r)
  {
    hide RoundResult, RoundGives, Start, Run, LastRound, StaysShut, LastOf, SleptBefore;
    if c.payload.Some? {
      var last := LastRound(c, s, from, 0);
      ShutIffUndecrypted(c, s, from);
      RoundGivesIff(c, s, from, last, r);
      LastRoundIs(c, s, from);
      if Attested(c, s, from).result == r {
        assert GivesIn(c, s, from, last, r);
      }
      if round: nat :| GivesIn(c, s, from, round, r) {
        RoundGivesIff(c, s, from, round, r);
        LastIs(c, s, from, round);
      }
    }
  }

  lemma ShutIffUndecrypted(c: Client, s: Stream, from: nat)
    ensures forall i: nat :: StaysShut(c, LastOf(c, s, from, i), i) <==> Undecrypted(c, s, from, i)
  {
    hide RoundResult, Start, Run, StaysShut, LastOf;
    forall i: nat ensures StaysShut(c, LastOf(c, s, from, i), i) <==> Undecrypted(c, s, from, i) {
      RoundGivesIff(c, s, from, i, Err(DecryptionFailed));
    }
  }

  lemma LastRoundIs(c: Client, s: Stream, from: nat)
    ensures
      var last := LastRound(c, s, from, 0);
      && last <= c.maxRounds
      && (forall i: nat :: i < last ==> Undecrypted(c, s, from, i))
      && (last == c.maxRounds || !Undecrypted(c, s, from, last))
  {
    hide LastRound, Undecrypted;
  }

  /** A token is returned exactly when the first round that does not stay shut opens to it. */
  lemma AttestSucceedsIff(c: Client, s: Stream, from: nat, token: bytes)
    ensures
      Attested(c, s, from).result == Ok(token) <==>
        c.payload.Some? &&
        exists round: nat ::
          && round <= c.maxRounds
          && (forall i: nat :: i < round ==> StaysShut(c, LastOf(c, s, from, i), i))
          && OpensTo(c, LastOf(c, s, from, round), round, token)
  {
    hide RoundResult, Start, Run, LastRound, StaysShut, LastOf, OpensTo, SleptBefore, Attested;
    AttestedIff(c, s, from, Ok(token));
    if Attested(c, s, from).result == Ok(token) && c.payload.Some? {
      var round: nat :| GivesIn(c, s, from, round, Ok(token));
    }
    if round: nat :|
      && round <= c.maxRounds
      && (forall i: nat :: i < round ==> StaysShut(c, LastOf(c, s, from, i), i))
      && OpensTo(c, LastOf(c, s, from, round), round, token)
    {
      assert GivesIn(c, s, from, round, Ok(token));
    }
  }

  /** The token is what the very last attempt carried opens to, in the last round. */
  lemma TokenIsFromLastAttempt(c: Client, s: Stream, from: nat, f: Final)
    requires f == Attested(c, s, from) && f.result.Ok?
    ensures f.sends > 0 && f.rounds > 0
    ensures OpensTo(c, s(from + f.sends - 1), f.rounds - 1, f.result.value)
  {
    hide Run, Start, SleptBefore, Undecrypted, LastRound, OpensTo, RoundResult;
    var r := LastRound(c, s, from, 0);
    StartOfNext(c, s, from, r);
    RoundGivesIff(c, s, from, r, f.result);
  }

  /**
   A round ends the process exactly when its response makes the JSON library throw, or its token is
   no base64url text or throws on opening; another round is no answer to that.
   */
  lemma ProcessEndsIff(c: Client, s: Stream, start: nat, round: nat)
    ensures
      var http := Run(c.Requests(), s, start).result;
      RoundResult(c, s, start, round) == Err(ProcessEnds) <==>
        && http.Ok?
        && (c.parse(http.value).ParsingThrows?
            || (c.parse(http.value).Token? && Throws(c, round, c.parse(http.value).token)))
  {
    hide Run;
  }

  predicate Throws(c: Client, round: nat, token: bytes) {
    token != [] && match Base64.UrlDecode(token)
                   case Err(_) => true
                   case Ok(decoded) => c.open(round, decoded).DecryptionThrows?
  }

  /** A token with a dot in it, such as a JWT that is not encrypted, ends the process in the first round. */
  lemma DottedTokenEndsProcess(c: Client, s: Stream, from: nat, token: bytes)
    requires c.payload.Some? && Base64.DOT in token
    requires s(from).curlOk && s(from).status == HTTP_OK && c.parse(Concat(s(from).chunks)) == Token(token)
    ensures Attested(c, s, from).result == Err(ProcessEnds)
    ensures Attested(c, s, from).rounds == 1 && Attested(c, s, from).sends == 1
  {
    hide Concat, Run, Start, SleptBefore, LastRound, DecryptMaaToken, Pauses;
    FirstAttemptSettles(c.Requests(), s, from);
    DottedThrows(c, 0, token);
    NoRounds(c, s, from);
    LastIs(c, s, from, 0);
    StartOfNext(c, s, from, 0);
  }

  lemma FirstAttemptSettles(l: Limits, s: Stream, from: nat)
    requires l.service.Attestation? && s(from).curlOk && s(from).status == HTTP_OK
    ensures Run(l, s, from).retries == 0 && Run(l, s, from).result == Ok(Concat(s(from).chunks))
  {
    hide Concat, Pauses;
  }

  lemma DottedThrows(c: Client, round: nat, token: bytes)
    requires Base64.DOT in token
    ensures DecryptMaaToken(c, round, token) == DecryptionThrows
  {
    hide Base64.UrlDecode;
    DottedIsNoText(token);
  }

  lemma DottedIsNoText(token: bytes)
    requires Base64.DOT in token
    ensures Base64.UrlDecode(token) == Err(Base64.InvalidCharacter)
  {
    var k :| 0 <= k < |token| && token[k] == Base64.DOT;
    assert Base64.Sextet(Base64.FromUrl(token)[k]) == -1;
  }

  /** However the transport behaves, no more than (rounds + 1) * (retries + 1) requests go out. */
  lemma SendsAreBounded(c: Client, s: Stream, from: nat)
    ensures
      var f := Attested(c, s, from);
      && f.sends <= (c.maxRounds + 1) * (c.maxRetries + 1)
      && (c.maxRounds == c.maxRetries ==> f.sends <= (c.maxRetries + 1) * (c.maxRetries + 1))
  {
    hide RoundResult, Start, SleptBefore, Run, Undecrypted;
    var rounds := Attested(c, s, from).rounds;
    assert Start(c, s, from, rounds) >= from;
    NoMore(rounds, c.maxRounds + 1, c.maxRetries + 1);
  }

  lemma StartOfNext(c: Client, s: Stream, from: nat, r: nat)
    ensures Start(c, s, from, r + 1) == Start(c, s, from, r) + Run(c.Requests(), s, Start(c, s, from, r)).retries + 1
  {
    hide Run;
  }

  lemma NoMore(a: nat, b: nat, n: nat)
    requires a <= b
    ensures a * n <= b * n
  {
  }

  /**
   Between r + 1 rounds there are at least 5 * (2^r - 1) seconds; without Retry-After, no more than
   that, and what the r requests slept at most themselves.
   */
  lemma {:induction false} RoundBackoff(c: Client, s: Stream, from: nat, round: nat)
    ensures 5000 * (Bits.Pow2(round) - 1) <= Sum(SleptBefore(c, s, from, round))
    ensures (forall i :: from <= i < Start(c, s, from, round) ==> s(i).retryAfter == 0) ==>
              Sum(SleptBefore(c, s, from, round)) <=
              5000 * (Bits.Pow2(round) - 1) + round * MostSlept(c.Requests())
  {
    hide Run, Start, Sum, MostSlept;
    if round == 0 {
      SumOneMore([], 0);
      assert round * MostSlept(c.Requests()) == 0;
    } else {
      var r, l := round - 1, c.Requests();
      var start := Start(c, s, from, r);
      RoundBackoff(c, s, from, r);
      StartOfNext(c, s, from, r);
      RequestSleeps(l, s, start);
      var o := Run(l, s, start);
      SumAppend(SleptBefore(c, s, from, r), o.pauses);
      SumOneMore(SleptBefore(c, s, from, r) + o.pauses, 1000 * (ROUND_BASE * Bits.Pow2(r)));
      OneRoundMore(round, MostSlept(l));
    }
  }

  /** The most one request may sleep without Retry-After. */
  function MostSlept(l: Limits): nat {
    Backoff(l, l.maxRetries) + MAX_JITTER * l.maxRetries
  }

  lemma RequestSleeps(l: Limits, s: Stream, from: nat)
    ensures
      var o := Run(l, s, from);
      (forall i :: from <= i <= from + o.retries ==> s(i).retryAfter == 0) ==>
        Sum(o.pauses) <= MostSlept(l)
  {
    hide Backoff, Pauses, Sum, Judge;
    var k := Run(l, s, from).retries;
    TotalBackoff(l, s, from, k);
    BackoffIsMonotone(l, k, l.maxRetries);
  }

  lemma {:induction false} BackoffIsMonotone(l: Limits, k: nat, n: nat)
    requires k <= n
    ensures Backoff(l, k) <= Backoff(l, n)
    decreases n - k
  {
    hide Backoff, Bits.Pow2;
    if k < n {
      BackoffIsMonotone(l, k + 1, n);
      BackoffGrows(l, k);
    }
  }

  // ---------- the loop ----------

  twostate predicate InRound(c: Client, t: Transport, round: nat)
    reads t
  {
    && round <= c.maxRounds
    && t.next == Start(c, t.stream, old(t.next), round)
    && t.slept == old(t.slept) + SleptBefore(c, t.stream, old(t.next), round)
    && AllUndecrypted(c, t.stream, old(t.next), round)
  }

  ghost predicate AllUndecrypted(c: Client, s: Stream, from: nat, round: nat) {
    forall i :: 0 <= i < round ==> Undecrypted(c, s, from, i)
  }

  lemma LastIs(c: Client, s: Stream, from: nat, r: nat)
    requires r <= c.maxRounds && AllUndecrypted(c, s, from, r)
    requires r == c.maxRounds || !Undecrypted(c, s, from, r)
    ensures LastRound(c, s, from, 0) == r
  {
    hide RoundResult, Start, Undecrypted;
    var last := LastRound(c, s, from, 0);
    assert r < last ==> Undecrypted(c, s, from, r);
    assert last < r ==> Undecrypted(c, s, from, last);
  }

  /** Sends the payload once more; the request retries on its own. */
  method SendAttestationRequest(c: Client, t: Transport) returns (r: Result<bytes, AttestError>)
    modifies t
    ensures c.payload.None? ==> r == Err(PayloadFailed) && t.next == old(t.next) && t.slept == old(t.slept)
    ensures c.payload.Some? ==>
              var o := Run(c.Requests(), t.stream, old(t.next));
              && Advanced(t, o)
              && r == (if o.result.Ok? then Ok(o.result.value) else Err(HttpFailed(o.result.error)))
  {
    if c.payload.None? {
      return Err(PayloadFailed);
    }
    ghost var o;
    var http;
    http, o := SendRequest(t, c.maxRetries, c.base);
    return if http.Ok? then Ok(http.value) else Err(HttpFailed(http.error));
  }

  /** Copies the token into a buffer of its own and ends it with a NUL. */
  method CopyToken(token: bytes) returns (buffer: array<byte>)
    ensures fresh(buffer) && buffer[..] == token + [0]
  {
    buffer := new byte[|token| + 1](i requires 0 <= i < |token| + 1 => if i < |token| then token[i] else 0);
  }

  lemma NextRound(c: Client, s: Stream, from: nat, round: nat)
    requires AllUndecrypted(c, s, from, round) && Undecrypted(c, s, from, round)
    ensures AllUndecrypted(c, s, from, round + 1)
    ensures
      SleptBefore(c, s, from, round + 1) ==
      SleptBefore(c, s, from, round) + Run(c.Requests(), s, Start(c, s, from, round)).pauses
      + [1000 * (ROUND_BASE * Bits.Pow2(round))]
  {
    hide Undecrypted, Run, Start, Bits.Pow2;
  }

  lemma NoRounds(c: Client, s: Stream, from: nat)
    ensures AllUndecrypted(c, s, from, 0)
    ensures Start(c, s, from, 0) == from && SleptBefore(c, s, from, 0) == []
  {
  }

  /**
   The out-pointer is set exactly on success, to the token of the last round and a NUL; it stays
   null on every failure.
   */
  method Attest(c: Client, t: Transport) returns (error: Option<AttestError>, jwtTokenOut: array?<byte>)
    modifies t
    ensures error.None? <==> jwtTokenOut != null
    ensures
      var f := Attested(c, t.stream, old(t.next));
      && error == (if f.result.Ok? then None else Some(f.result.error))
      && (f.result.Ok? ==> jwtTokenOut != null && fresh(jwtTokenOut) && jwtTokenOut[..] == f.result.value + [0])
      && t.next == old(t.next) + f.sends
      && t.slept == old(t.slept) + f.slept
  {
    hide Run, Start, SleptBefore, AllUndecrypted, Bits.Pow2, LastRound, DecryptMaaToken, Base64.UrlDecode;
    ghost var s, from := t.stream, t.next;
    var round: nat := 0;
    var token: bytes;
    NoRounds(c, s, from);
    while true
      invariant InRound(c, t, round)
      invariant round > 0 ==> c.payload.Some?
      decreases c.maxRounds - round
    {
      StartOfNext(c, s, from, round);
      var response := SendAttestationRequest(c, t);
      if response.Err? {
        if c.payload.Some? {
          LastIs(c, s, from, round);
        }
        return Some(response.error), null;
      }
      var encrypted := c.parse(response.value);
      if !encrypted.Token? {
        LastIs(c, s, from, round);
        return Some(if encrypted.Unparsable? then ParseFailed else ProcessEnds), null;
      }
      var decrypted := DecryptMaaToken(c, round, encrypted.token);
      if decrypted.DecryptionThrows? {
        LastIs(c, s, from, round);
        return Some(ProcessEnds), null;
      }
      if decrypted.NotDecrypted? {
        if round < c.maxRounds {
          NextRound(c, s, from, round);
          t.Sleep(1000 * (ROUND_BASE * Bits.Pow2(round)));
          round := round + 1;
          continue;
        }
        LastIs(c, s, from, round);
        return Some(DecryptionFailed), null;
      }
      LastIs(c, s, from, round);
      token := decrypted.token;
      break;
    }
    jwtTokenOut := CopyToken(token);
    return None, jwtTokenOut;
  }

  /** Between two rounds: the pauses of the request, then 5, 10, 20, ... seconds. */
  lemma RoundSleeps(c: Client, s: Stream, from: nat, round: nat)
    ensures SleptBefore(c, s, from, 0) == []
    ensures SleptBefore(c, s, from, round + 1) ==
            SleptBefore(c, s, from, round) + Run(c.Requests(), s, Start(c, s, from, round)).pauses
            + [5000 * Bits.Pow2(round)]
    ensures c.Requests() == Limits(Attestation, c.maxRetries, c.base)
  {
    hide Run, Start;
  }
}
