/** Reading a TPM NV index in chunks. */
module NvRead {
  import opened Bytes

  const NV_CHUNK: nat := 1024
  const MAX_NV_SIZE: nat := 0xFFFF

  /** What the TPM does on each call: fail, or have so many bytes to give, none at all included. */
  type Answers = int -> Option<nat>

  // ---------- the course of a read ----------

  /** The size of a request: the chunk limit, or what is left. */
  function Asked(total: nat, offset: nat): (size: nat)
    requires offset <= total
    ensures size <= NV_CHUNK && offset + size <= total
    ensures offset < total ==> size > 0
  {
    if total - offset > NV_CHUNK then NV_CHUNK else total - offset
  }

  /** The bytes a call gives, never more than it was asked for. */
  function Given(a: Answers, call: nat, size: nat): (n: nat)
    ensures n <= size
  {
    if a(call).None? then 0 else if a(call).value < size then a(call).value else size
  }

  /** How far so many calls get. */
  function Offset(a: Answers, total: nat, calls: nat): (o: nat)
    ensures o <= total
  {
    if calls == 0 then
      0
    else
      var before := Offset(a, total, calls - 1);
      before + Given(a, calls - 1, Asked(total, before))
  }

  /** The size and offset of each of so many requests. */
  function Requests(a: Answers, total: nat, calls: nat): (r: seq<(nat, nat)>)
    ensures |r| == calls
  {
    if calls == 0 then
      []
    else
      var before := Offset(a, total, calls - 1);
      Requests(a, total, calls - 1) + [(Asked(total, before), before)]
  }

  /** After so many calls there is nothing left to read, or the next call fails. */
  predicate Over(a: Answers, total: nat, calls: nat) {
    Offset(a, total, calls) == total || a(calls).None?
  }

  /** The first time it is. */
  function StopsAt(a: Answers, total: nat, k: nat, n: nat): (m: nat)
    requires k <= n && Over(a, total, n)
    ensures k <= m <= n && Over(a, total, m)
    ensures forall i: nat :: k <= i < m ==> !Over(a, total, i)
    decreases n - k
  {
    if Over(a, total, k) then k else StopsAt(a, total, k + 1, n)
  }

  // ---------- the read ----------

  class NvIndex {
    const content: bytes
    const answers: Answers
    var calls: nat
    ghost var requests: seq<(nat, nat)>  // the size and offset of every call so far

    constructor (content: bytes, answers: Answers)
      ensures this.content == content && this.answers == answers && calls == 0 && requests == []
    {
      this.content, this.answers, calls, requests := content, answers, 0, [];
    }

    method Read(size: nat, offset: nat) returns (ok: bool, chunk: bytes)
      requires offset + size <= |content|
      modifies this
      ensures calls == old(calls) + 1 && requests == old(requests) + [(size, offset)]
      ensures ok <==> answers(old(calls)).Some?
      ensures ok ==> chunk == content[offset..offset + Given(answers, old(calls), size)]
    {
      var call := calls;
      calls, requests := calls + 1, requests + [(size, offset)];
      if answers(call).None? {
        return false, [];
      }
      return true, content[offset..offset + Given(answers, call, size)];
    }
  }

  lemma OneChunkMore(content: bytes, offset: nat, n: nat)
    requires offset + n <= |content|
    ensures content[..offset] + content[offset..offset + n] == content[..offset + n]
  {
  }

  lemma NotOver(a: Answers, total: nat, k: nat, n: nat)
    requires k <= n && Over(a, total, n)
    ensures StopsAt(a, total, k, n) == if Over(a, total, k) then k else StopsAt(a, total, k + 1, n)
    ensures !Over(a, total, k) ==> k < n
  {
  }

  /**
   The whole content, in order, unless a call fails first; the calls made are exactly those of the
   course above. The read is over after some number of calls n, which need not be known.
   */
  method Tss2NvRead(index: NvIndex, ghost n: nat) returns (ok: bool, data: bytes)
    requires |index.content| <= MAX_NV_SIZE && index.requests == [] && index.calls == 0
    requires Over(index.answers, |index.content|, n)
    modifies index
    ensures
      var a, total := index.answers, |index.content|;
      var m := StopsAt(a, total, 0, n);
      && ok == (Offset(a, total, m) == total)
      && index.requests == Requests(a, total, if ok then m else m + 1)
    ensures ok ==> data == index.content
  {
    hide Over, Given, Asked, StopsAt;
    ghost var a := index.answers;
    var total := |index.content|;
    var buffer := new byte[total](_ => 0);
    var size: nat := total;
    var offset: nat := 0;
    while size > 0
      invariant offset + size == total == buffer.Length
      invariant offset == Offset(a, total, index.calls)
      invariant buffer[..offset] == index.content[..offset]
      invariant index.requests == Requests(a, total, index.calls)
      invariant index.calls <= n && StopsAt(a, total, index.calls, n) == StopsAt(a, total, 0, n)
      decreases n - index.calls, size
    {
      ghost var call := index.calls;
      var bytesToRead := if size > NV_CHUNK then NV_CHUNK else size;
      Step(a, total, call, n, bytesToRead);
      var chunk;
      ok, chunk := index.Read(bytesToRead, offset);
      if !ok {
        return false, [];
      }
      OneChunkMore(index.content, offset, |chunk|);
      Store(chunk, buffer, offset);
      size := size - |chunk|;
      offset := offset + |chunk|;
    }
    Finished(a, total, index.calls, n);
    assert buffer[..] == buffer[..offset];
    return true, buffer[..];
  }

  /** One call more: what it asks for, and where it leaves the read. */
  lemma Step(a: Answers, total: nat, call: nat, n: nat, size: nat)
    requires call <= n && Over(a, total, n) && Offset(a, total, call) < total
    requires size == if total - Offset(a, total, call) > NV_CHUNK then NV_CHUNK else total - Offset(a, total, call)
    ensures size == Asked(total, Offset(a, total, call))
    ensures Requests(a, total, call + 1) == Requests(a, total, call) + [(size, Offset(a, total, call))]
    ensures Offset(a, total, call + 1) == Offset(a, total, call) + Given(a, call, size)
    ensures a(call).None? ==> StopsAt(a, total, call, n) == call
    ensures a(call).Some? ==> call < n && StopsAt(a, total, call, n) == StopsAt(a, total, call + 1, n)
  {
    NotOver(a, total, call, n);
  }

  lemma Finished(a: Answers, total: nat, call: nat, n: nat)
    requires call <= n && Over(a, total, n) && Offset(a, total, call) == total
    ensures StopsAt(a, total, call, n) == call
  {
    NotOver(a, total, call, n);
  }

  // ---------- what the calls are like ----------

  /** Each request asks for at most the chunk limit and what is left, and starts within what the last one asked for. */
  lemma {:induction false} RequestsAreContiguous(a: Answers, total: nat, calls: nat, i: nat)
    requires i < calls
    ensures
      var r := Requests(a, total, calls);
      && r[i] == (Asked(total, Offset(a, total, i)), Offset(a, total, i))
      && (i == 0 ==> r[i].1 == 0)
      && (i > 0 ==> r[i - 1].1 <= r[i].1 <= r[i - 1].1 + r[i - 1].0)
  {
    if i + 1 < calls {
      RequestsAreContiguous(a, total, calls - 1, i);
    } else if i > 0 {
      RequestsAreContiguous(a, total, calls - 1, i - 1);
    }
  }

  lemma {:induction false} OffsetGrows(a: Answers, total: nat, k: nat, n: nat)
    requires k <= n
    ensures Offset(a, total, k) <= Offset(a, total, n)
  {
    if k < n {
      OffsetGrows(a, total, k, n - 1);
    }
  }

  /** If every call gives at least a byte, the read is over after at most as many calls as there are bytes. */
  lemma {:induction false} NonemptyAnswersEnd(a: Answers, total: nat, calls: nat)
    requires calls <= total
    requires forall i :: 0 <= i < calls ==> a(i).Some? && a(i).value > 0
    ensures Offset(a, total, calls) >= calls
    ensures calls == total ==> Over(a, total, calls)
  {
    if calls > 0 {
      NonemptyAnswersEnd(a, total, calls - 1);
    }
  }

  /** Empty answers make no progress: so many of them are so many calls with the same request. */
  lemma {:induction false} EmptyAnswersRepeat(a: Answers, total: nat, k: nat, n: nat)
    requires forall i :: k <= i < k + n ==> a(i) == Some(0)
    ensures Offset(a, total, k + n) == Offset(a, total, k)
    ensures
      var o := Offset(a, total, k);
      Requests(a, total, k + n) == Requests(a, total, k) + seq(n, _ => (Asked(total, o), o))
  {
    var o := Offset(a, total, k);
    var same: seq<(nat, nat)> := seq(n, _ => (Asked(total, o), o));
    if n == 0 {
      assert Requests(a, total, k) + same == Requests(a, total, k);
    } else {
      EmptyAnswersRepeat(a, total, k, n - 1);
      assert same == seq(n - 1, _ => (Asked(total, o), o)) + [(Asked(total, o), o)];
    }
  }

  /** From a call on, with no failure before it and something left to read, every answer is empty. */
  ghost predicate StuckFrom(a: Answers, total: nat, k: nat) {
    && (forall i :: 0 <= i < k ==> a(i).Some?)
    && Offset(a, total, k) < total
    && forall i :: i >= k ==> a(i) == Some(0)
  }

  /** A read is never over exactly when it gets stuck like that. */
  lemma NeverOverIff(a: Answers, total: nat)
    ensures (forall n: nat :: !Over(a, total, n)) <==> exists k: nat :: StuckFrom(a, total, k)
  {
    if forall n: nat :: !Over(a, total, n) {
      var k := FindStuck(a, total, 0);
    }
    if k: nat :| StuckFrom(a, total, k) {
      forall n: nat ensures !Over(a, total, n) {
        if n < k {
          OffsetGrows(a, total, n, k);
        } else {
          EmptyAnswersRepeat(a, total, k, n - k);
        }
      }
    }
  }

  lemma {:induction false} FindStuck(a: Answers, total: nat, from: nat) returns (k: nat)
    requires forall n: nat :: !Over(a, total, n)
    ensures StuckFrom(a, total, k)
    decreases total - Offset(a, total, from)
  {
    assert forall i: nat :: !Over(a, total, i) ==> a(i).Some?;
    assert !Over(a, total, from);
    if n: nat :| from <= n && a(n) != Some(0) {
      OffsetGrows(a, total, from, n);
      assert !Over(a, total, n);
      k := FindStuck(a, total, n + 1);
    } else {
      k := from;
    }
  }

  /** A TPM that never gives a byte. */
  function Silent(): Answers {
    _ => Some(0)
  }

  /** It keeps the read of a single byte going for ever. */
  lemma SilentTpmIsReadForEver()
    ensures StuckFrom(Silent(), 1, 0)
    ensures forall n: nat :: !Over(Silent(), 1, n)
  {
    assert StuckFrom(Silent(), 1, 0);
    NeverOverIff(Silent(), 1);
  }

  /** The requests in literal form: at most 1024 bytes, and no more than are left. */
  lemma RequestIs(a: Answers, total: nat, calls: nat, i: nat)
    requires i < calls
    ensures
      var r := Requests(a, total, calls)[i];
      r.1 == Offset(a, total, i) && r.0 == if total - r.1 < 1024 then total - r.1 else 1024
  {
    hide Requests, Offset;
    RequestsAreContiguous(a, total, calls, i);
  }

  /** And what they add up to: each call gives what the TPM has, but never more than it was asked for. */
  lemma OffsetIs(a: Answers, total: nat, i: nat)
    ensures Offset(a, total, 0) == 0
    ensures
      var left := total - Offset(a, total, i);
      var asked := if left < 1024 then left else 1024;
      Offset(a, total, i + 1) - Offset(a, total, i) ==
        match a(i) {
          case None => 0
          case Some(n) => if n < asked then n else asked
        }
  {
  }
}
