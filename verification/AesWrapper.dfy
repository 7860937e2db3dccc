/**
 The block-by-block AES-GCM wrapper over a chaining provider: every chained call hands over
 exactly one full block, and the chain computes the one-shot encryption and decryption.
 */
module AesWrapper {
  import opened Bytes
  import opened Bits
  import opened Gcm
  import Standard = GcmStandard

  datatype Status = Success | InvalidHandle | InvalidBufferSize | BufferTooSmall | AuthTagMismatch

  datatype AesError = NullChainingInfo | LengthError | KeyError | EncryptError | DecryptError

  /** The authenticated-mode record a caller keeps across chained calls. */
  class ChainingInfo {
    const nonce: bytes
    var tag: bytes
    var chained: bool              // the chain-calls flag
    var macContext: Option<bytes>  // running hash; None until the first chained call
    var dataLength: nat
    ghost var chunks: seq<nat>     // the size of every buffer handed to the provider

    constructor (nonce: bytes)
      ensures this.nonce == nonce && Fresh()
    {
      this.nonce := nonce;
      tag, chained, macContext, dataLength, chunks := Zeros(TAG), true, None, 0, [];
    }

    /** In a chain that has seen n bytes. */
    ghost predicate Chaining(n: nat)
      reads this
    {
      chained && dataLength == n && macContext.Some? && |macContext.value| == BLOCK
    }

    /** Not used for any call yet. */
    ghost predicate Fresh()
      reads this
    {
      chained && macContext == None && dataLength == 0 && chunks == [] && |tag| == TAG
    }
  }

  /** What a call starts from: the counter block and the running hash. */
  function StartCounter(c: Cipher, key: bytes, nonce: bytes, mac: Option<bytes>, iv: bytes): bytes
    requires c.Lawful()
  {
    if mac.Some? then iv else Inc32(J0(c, key, nonce))
  }

  function StartHash(mac: Option<bytes>): bytes {
    if mac.Some? then mac.value else Zeros(BLOCK)
  }

  /** The provider's checks on a call's buffers. */
  function CallStatus(chained: bool, size: nat, capacity: nat): Status {
    if chained && size % BLOCK != 0 then InvalidBufferSize
    else if size > capacity then BufferTooSmall
    else Success
  }

  /**
   The provider's encryption call. It reads the iv buffer and leaves the next counter in it,
   keeps the running hash in the info, and computes the tag when calls are no longer chained.
   */
  method ProviderEncrypt(c: Cipher, key: Option<bytes>, input: bytes, info: ChainingInfo, iv: bytes, capacity: nat)
    returns (status: Status, output: bytes, ivOut: bytes)
    requires c.Lawful() && |iv| == BLOCK
    requires info.macContext.Some? ==> |info.macContext.value| == BLOCK
    modifies info
    ensures info.chained == old(info.chained) && info.chunks == old(info.chunks) + [|input|]
    ensures |ivOut| == BLOCK
    ensures status == if key == None then InvalidHandle else CallStatus(info.chained, |input|, capacity)
    ensures status == Success ==>
      var cb := StartCounter(c, key.value, info.nonce, old(info.macContext), iv);
      var y := Ghash(c, HashKey(c, key.value), StartHash(old(info.macContext)), output);
      && output == Gctr(c, key.value, cb, input)
      && ivOut == Advance(cb, |input| / BLOCK)
      && info.macContext == Some(y) && info.dataLength == old(info.dataLength) + |input|
      && (!info.chained ==> info.tag == TagOf(c, key.value, info.nonce, y, info.dataLength))
  {
    hide Gctr, Ghash, Absorb, TagOf, Advance, J0, HashKey, Inc32;
    info.chunks := info.chunks + [|input|];
    output, ivOut := [], iv;
    if key == None { return InvalidHandle, output, ivOut; }
    status := CallStatus(info.chained, |input|, capacity);
    if status != Success { return; }
    var cb := StartCounter(c, key.value, info.nonce, info.macContext, iv);
    output := Gctr(c, key.value, cb, input);
    ivOut := Advance(cb, |input| / BLOCK);
    var y := Ghash(c, HashKey(c, key.value), StartHash(info.macContext), output);
    info.macContext, info.dataLength := Some(y), info.dataLength + |input|;
    if !info.chained {
      info.tag := TagOf(c, key.value, info.nonce, y, info.dataLength);
    }
  }

  /** The provider's decryption call; when calls are no longer chained it checks the caller's tag. */
  method ProviderDecrypt(c: Cipher, key: Option<bytes>, input: bytes, info: ChainingInfo, iv: bytes, capacity: nat)
    returns (status: Status, output: bytes, ivOut: bytes, ghost expected: bytes)
    requires c.Lawful() && |iv| == BLOCK
    requires info.macContext.Some? ==> |info.macContext.value| == BLOCK
    modifies info
    ensures info.chained == old(info.chained) && info.chunks == old(info.chunks) + [|input|]
    ensures info.tag == old(info.tag) && |ivOut| == BLOCK
    ensures key == None ==> status == InvalidHandle
    ensures key != None ==>
      var y := Ghash(c, HashKey(c, key.value), StartHash(old(info.macContext)), input);
      expected == TagOf(c, key.value, info.nonce, y, old(info.dataLength) + |input|)
    ensures key != None ==> status == DecryptStatus(info.chained, |input|, capacity, info.tag == expected)
    ensures key != None && status == Success ==>
      var cb := StartCounter(c, key.value, info.nonce, old(info.macContext), iv);
      var y := Ghash(c, HashKey(c, key.value), StartHash(old(info.macContext)), input);
      && output == Gctr(c, key.value, cb, input)
      && ivOut == Advance(cb, |input| / BLOCK)
      && info.macContext == Some(y) && info.dataLength == old(info.dataLength) + |input|
  {
    hide Gctr, Ghash, Absorb, TagOf, Advance, J0, HashKey, Inc32;
    info.chunks := info.chunks + [|input|];
    output, ivOut, expected := [], iv, [];
    if key == None { return InvalidHandle, output, ivOut, expected; }
    var y := Ghash(c, HashKey(c, key.value), StartHash(info.macContext), input);
    var tag := TagOf(c, key.value, info.nonce, y, info.dataLength + |input|);
    expected := tag;
    status := DecryptStatus(info.chained, |input|, capacity, info.tag == tag);
    if status != Success { return; }
    var cb := StartCounter(c, key.value, info.nonce, info.macContext, iv);
    output := Gctr(c, key.value, cb, input);
    ivOut := Advance(cb, |input| / BLOCK);
    info.macContext, info.dataLength := Some(y), info.dataLength + |input|;
  }

  function DecryptStatus(chained: bool, size: nat, capacity: nat, tagMatches: bool): Status {
    if CallStatus(chained, size, capacity) != Success then CallStatus(chained, size, capacity)
    else if !chained && !tagMatches then AuthTagMismatch
    else Success
  }

  // ---------- the wrapper ----------

  function RoundUp(n: nat, multiple: nat): nat
    requires multiple > 0
  {
    (n + multiple - 1) / multiple * multiple
  }

  /** The sizes of a chain over n bytes: one opening call, full blocks, then the rest. */
  function ChunkSizes(n: nat): seq<nat> {
    [0] + Blocks(n)
  }

  function Blocks(n: nat): seq<nat> {
    if n <= BLOCK then [n] else [BLOCK] + Blocks(n - BLOCK)
  }

  function OrDecryptError(plain: Option<bytes>): Result<bytes, AesError> {
    if plain.Some? then Ok(plain.value) else Err(DecryptError)
  }

  lemma OpensAsStandard(c: Cipher, key: bytes, nonce: bytes, sealed: bytes)
    requires c.Lawful()
    ensures forall plain ::
      Open(c, key, nonce, sealed) == Some(plain) <==> Standard.IsSealed(c, key, nonce, plain, sealed)
  {
    hide Open, Standard.IsSealed;
    forall plain: bytes
      ensures Open(c, key, nonce, sealed) == Some(plain) <==> Standard.IsSealed(c, key, nonce, plain, sealed)
    {
      Standard.OpenIsStandard(c, key, nonce, sealed, plain);
    }
  }

  lemma ChunkStep(before: seq<nat>, n: nat)
    requires n > BLOCK
    ensures before + Blocks(n) == (before + [BLOCK]) + Blocks(n - BLOCK)
  {
  }

  class GcmWrapper {
    const cipher: Cipher
    var key: Option<bytes>

    constructor (cipher: Cipher)
      ensures this.cipher == cipher && key == None
    {
      this.cipher, key := cipher, None;
    }

    method SetKey(key: bytes) returns (r: Result<(), AesError>)
      modifies this
      ensures r == if |key| in {16, 24, 32} then Ok(()) else Err(KeyError)
      ensures this.key == if r.Ok? then Some(key) else old(this.key)
    {
      if |key| in {16, 24, 32} {
        this.key := Some(key);
        r := Ok(());
      } else {
        r := Err(KeyError);
      }
    }

    method SetChainingInfo(nonce: bytes) returns (info: ChainingInfo)
      ensures fresh(info) && info.nonce == nonce && info.Fresh()
    {
      info := new ChainingInfo(nonce);
    }

    method Encrypt(data: bytes, info: ChainingInfo?) returns (r: Result<bytes, AesError>)
      requires cipher.Lawful() && (info != null ==> info.Fresh())
      modifies if info == null then {} else {info}
      ensures info == null ==> r == Err(NullChainingInfo)
      ensures info != null && key == None ==> r == Err(EncryptError)
      ensures info != null && key != None ==> r == Ok(Seal(cipher, key.value, info.nonce, data))
      ensures info != null && key != None ==> Standard.IsSealed(cipher, key.value, info.nonce, data, r.value)
      ensures info != null && key != None ==> info.chunks == ChunkSizes(|data|) && !info.chained
    {
      hide Gctr, Ghash, Absorb, TagOf, Advance, J0, HashKey, LengthBlock, Inc32, Standard.IsSealed;
      if info == null { return Err(NullChainingInfo); }
      if key == None { return Err(EncryptError); }
      Standard.SealIsStandard(cipher, key.value, info.nonce, data, Seal(cipher, key.value, info.nonce, data));
      var result := new byte[RoundUp(|data|, BLOCK) + TAG](_ => 0);
      ghost var k, ct := key.value, Keystreamed(cipher, key.value, info.nonce, data);
      var status, offset, iv := EncryptChain(data, info, result, ct);
      if status != Success { return Err(EncryptError); }
      info.chained := false;
      ghost var y, done, rest := info.macContext.value, result[..offset], data[offset..];
      EncryptRest(cipher, k, info.nonce, data, done, rest, iv, y);
      var piece;
      status, piece, iv := ProviderEncrypt(cipher, key, data[offset..], info, iv, BLOCK);
      if status != Success { return Err(EncryptError); }
      Store(piece, result, offset);
      r := Ok(result[..offset + |piece|] + info.tag);
    }

    /** What the block loop keeps: the written prefix, the chain state and the calls made so far. */
    ghost predicate InStep(data: bytes, info: ChainingInfo, result: array<byte>, offset: nat, iv: bytes, ct: bytes)
      reads this, info, result
    {
      && cipher.Lawful() && key != None && |iv| == BLOCK && offset <= |data| <= result.Length
      && info.Chaining(offset)
      && Encrypting(cipher, key.value, ct, result[..offset], data[offset..], iv, info.macContext.value)
      && info.chunks + Blocks(|data| - offset) == ChunkSizes(|data|)
    }

    /** The opening call and the loop over the blocks before the last one. */
    method EncryptChain(data: bytes, info: ChainingInfo, result: array<byte>, ghost ct: bytes)
      returns (status: Status, offset: nat, iv: bytes)
      requires cipher.Lawful() && key != None && info.Fresh() && result.Length >= |data|
      requires ct == Keystreamed(cipher, key.value, info.nonce, data)
      modifies info, result
      ensures status == Success && InStep(data, info, result, offset, iv, ct) && |data| - offset <= BLOCK
    {
      hide Gctr, Absorb, TagOf, J0, HashKey, LengthBlock, Inc32;
      var piece;
      offset := 0;
      status, piece, iv := ProviderEncrypt(cipher, key, [], info, Zeros(BLOCK), 0);
      if status != Success { return; }
      assert result[..0] + ct == ct && data[0..] == data;
      var numBlocks := RoundUp(|data|, BLOCK) / BLOCK;
      BlockCount(|data|, numBlocks);
      var i := 0;
      while i < numBlocks - 1
        invariant offset == i * BLOCK && (i == 0 || i <= numBlocks - 1)
        invariant status == Success && InStep(data, info, result, offset, iv, ct)
      {
        status, offset, iv := EncryptFullBlock(data, info, result, offset, iv, ct);
        if status != Success { return; }
        i := i + 1;
      }
    }

    method EncryptFullBlock(data: bytes, info: ChainingInfo, result: array<byte>, offset: nat, iv: bytes,
                            ghost ct: bytes)
      returns (status: Status, offset': nat, iv': bytes)
      requires InStep(data, info, result, offset, iv, ct) && |data| - offset > BLOCK
      modifies info, result
      ensures status == Success && offset' == offset + BLOCK && InStep(data, info, result, offset', iv', ct)
    {
      hide Gctr, Ghash, Absorb, TagOf, J0, HashKey, LengthBlock, Advance, Inc32, Blocks, ChunkSizes;
      ghost var y, done, rest := info.macContext.value, result[..offset], data[offset..];
      assert data[offset..offset + BLOCK] == rest[..BLOCK] && data[offset + BLOCK..] == rest[BLOCK..];
      EncryptBlock(cipher, key.value, ct, done, rest, iv, y);
      ChunkStep(info.chunks, |rest|);
      var piece;
      offset' := offset;
      status, piece, iv' := ProviderEncrypt(cipher, key, data[offset..offset + BLOCK], info, iv, BLOCK);
      if status != Success { return; }
      Store(piece, result, offset);
      offset' := offset + |piece|;
    }

    // ---------- decryption ----------

    method Decrypt(sealed: bytes, info: ChainingInfo?) returns (r: Result<bytes, AesError>)
      requires cipher.Lawful() && (info != null ==> info.Fresh())
      modifies if info == null then {} else {info}
      ensures info == null ==> r == Err(NullChainingInfo)
      ensures info != null && |sealed| < TAG ==> r == Err(LengthError)
      ensures info != null && |sealed| >= TAG && key == None ==> r == Err(DecryptError)
      ensures info != null && |sealed| >= TAG && key != None
        ==> r == OrDecryptError(Open(cipher, key.value, info.nonce, sealed))
      ensures info != null && |sealed| >= TAG && key != None && r.Ok?
        ==> Standard.IsSealed(cipher, key.value, info.nonce, r.value, sealed)
      ensures info != null && |sealed| >= TAG && key != None && r.Err?
        ==> forall plain :: !Standard.IsSealed(cipher, key.value, info.nonce, plain, sealed)
      ensures info != null && |sealed| >= TAG && key != None ==> info.chunks == ChunkSizes(|sealed| - TAG)
    {
      hide Gctr, Ghash, Absorb, TagOf, Advance, J0, HashKey, LengthBlock, Inc32, Standard.IsSealed;
      if info == null { return Err(NullChainingInfo); }
      if |sealed| < TAG { return Err(LengthError); }
      if key == None { return Err(DecryptError); }
      OpensAsStandard(cipher, key.value, info.nonce, sealed);
      var n := |sealed| - TAG;
      var ct := sealed[..n];
      var result := new byte[n](_ => 0);
      ghost var plain := Keystreamed(cipher, key.value, info.nonce, ct);
      ghost var whole := Open(cipher, key.value, info.nonce, sealed);
      assert whole == if Tag(cipher, key.value, info.nonce, ct) == sealed[n..] then Some(plain) else None;
      var status, offset, iv := DecryptChain(ct, info, result, plain);
      if status != Success { return Err(DecryptError); }
      status := DecryptRest(ct, info, result, offset, iv, sealed[n..], plain);
      if status != Success { return Err(DecryptError); }
      r := Ok(result[..]);
    }

    /** The unchained call over the last block, which checks the tag peeled off the input. */
    method DecryptRest(ct: bytes, info: ChainingInfo, result: array<byte>, offset: nat, iv: bytes, tag: bytes,
                       ghost plain: bytes)
      returns (status: Status)
      requires OutStep(ct, info, result, offset, iv, plain) && |ct| - offset <= BLOCK
      modifies info, result
      ensures status == Success <==> tag == Tag(cipher, key.value, info.nonce, ct)
      ensures status == Success ==> result[..] == plain
      ensures info.chunks == ChunkSizes(|ct|) && !info.chained
    {
      hide Gctr, Ghash, Absorb, TagOf, Advance, J0, HashKey, LengthBlock, Inc32;
      ghost var rest := ct[offset..];
      ghost var whole := RestOf(cipher, key.value, ct, plain, result[..offset], rest, iv, info.macContext.value);
      assert TagOf(cipher, key.value, info.nonce, whole, |ct|) == Tag(cipher, key.value, info.nonce, ct);
      info.chained := false;
      info.tag := tag;
      var piece, ivOut;
      ghost var expected;
      status, piece, ivOut, expected := ProviderDecrypt(cipher, key, ct[offset..], info, iv, BLOCK);
      assert expected == Tag(cipher, key.value, info.nonce, ct);
      if status != Success { return; }
      Store(piece, result, offset);
      assert result[..] == result[..offset + |piece|];
    }

    ghost predicate OutStep(ct: bytes, info: ChainingInfo, result: array<byte>, offset: nat, iv: bytes, plain: bytes)
      reads this, info, result
    {
      && cipher.Lawful() && key != None && |iv| == BLOCK && offset <= |ct| == result.Length
      && info.Chaining(offset)
      && Decrypting(cipher, key.value, ct, plain, result[..offset], ct[offset..], iv, info.macContext.value)
      && info.chunks + Blocks(|ct| - offset) == ChunkSizes(|ct|)
    }

    /** The opening call and the loop over the blocks before the last one. */
    method DecryptChain(ct: bytes, info: ChainingInfo, result: array<byte>, ghost plain: bytes)
      returns (status: Status, offset: nat, iv: bytes)
      requires cipher.Lawful() && key != None && info.Fresh() && result.Length == |ct|
      requires plain == Keystreamed(cipher, key.value, info.nonce, ct)
      modifies info, result
      ensures status == Success && OutStep(ct, info, result, offset, iv, plain) && |ct| - offset <= BLOCK
    {
      hide Gctr, Absorb, TagOf, J0, HashKey, LengthBlock, Inc32;
      var piece;
      offset := 0;
      ghost var expected;
      status, piece, iv, expected := ProviderDecrypt(cipher, key, [], info, Zeros(BLOCK), 0);
      if status != Success { return; }
      assert result[..0] + plain == plain && ct[0..] == ct;
      var numBlocks := RoundUp(|ct|, BLOCK) / BLOCK;
      BlockCount(|ct|, numBlocks);
      var i := 0;
      while i < numBlocks - 1
        invariant offset == i * BLOCK && (i == 0 || i <= numBlocks - 1)
        invariant status == Success && OutStep(ct, info, result, offset, iv, plain)
      {
        status, offset, iv := DecryptFullBlock(ct, info, result, offset, iv, plain);
        if status != Success { return; }
        i := i + 1;
      }
    }

    method DecryptFullBlock(ct: bytes, info: ChainingInfo, result: array<byte>, offset: nat, iv: bytes,
                            ghost plain: bytes)
      returns (status: Status, offset': nat, iv': bytes)
      requires OutStep(ct, info, result, offset, iv, plain) && |ct| - offset > BLOCK
      modifies info, result
      ensures status == Success && offset' == offset + BLOCK && OutStep(ct, info, result, offset', iv', plain)
    {
      hide Gctr, Ghash, Absorb, TagOf, J0, HashKey, LengthBlock, Advance, Inc32, Blocks, ChunkSizes;
      ghost var y, done, rest := info.macContext.value, result[..offset], ct[offset..];
      assert ct[offset..offset + BLOCK] == rest[..BLOCK] && ct[offset + BLOCK..] == rest[BLOCK..];
      DecryptBlock(cipher, key.value, ct, plain, done, rest, iv, y);
      ChunkStep(info.chunks, |rest|);
      var piece;
      offset' := offset;
      ghost var expected;
      status, piece, iv', expected := ProviderDecrypt(cipher, key, ct[offset..offset + BLOCK], info, iv, BLOCK);
      if status != Success { return; }
      Store(piece, result, offset);
      offset' := offset + |piece|;
    }
  }

  lemma BlockCount(n: nat, blocks: nat)
    requires blocks == RoundUp(n, BLOCK) / BLOCK
    ensures n == 0 ==> blocks == 0
    ensures n > 0 ==> (blocks - 1) * BLOCK < n <= blocks * BLOCK
  {
  }

  /** The ciphertext is what was written followed by the encryption of the rest, and so is its hash. */
  ghost predicate Encrypting(c: Cipher, key: bytes, ct: bytes, done: bytes, rest: bytes, cb: bytes, y: bytes)
    requires c.Lawful() && |cb| == BLOCK && |y| == BLOCK
  {
    && ct == done + Gctr(c, key, cb, rest)
    && Ghash(c, HashKey(c, key), Zeros(BLOCK), ct) == Ghash(c, HashKey(c, key), y, Gctr(c, key, cb, rest))
  }

  lemma EncryptBlock(c: Cipher, key: bytes, ct: bytes, done: bytes, rest: bytes, cb: bytes, y: bytes)
    requires c.Lawful() && |cb| == BLOCK && |y| == BLOCK && |rest| > BLOCK
    requires Encrypting(c, key, ct, done, rest, cb, y)
    ensures var piece := Gctr(c, key, cb, rest[..BLOCK]);
            Encrypting(c, key, ct, done + piece, rest[BLOCK..], Advance(cb, 1), Ghash(c, HashKey(c, key), y, piece))
  {
    var piece := Gctr(c, key, cb, rest[..BLOCK]);
    var more := Gctr(c, key, Inc32(cb), rest[BLOCK..]);
    GctrBlock(c, key, cb, rest);
    GhashBlock(c, HashKey(c, key), y, piece, more);
    Associative(done, piece, more);
  }

  lemma EncryptRest(c: Cipher, key: bytes, nonce: bytes, data: bytes, done: bytes, rest: bytes, cb: bytes, y: bytes)
    requires c.Lawful() && |cb| == BLOCK && |y| == BLOCK
    requires Encrypting(c, key, Keystreamed(c, key, nonce, data), done, rest, cb, y)
    ensures var piece := Gctr(c, key, cb, rest);
            var tag := TagOf(c, key, nonce, Ghash(c, HashKey(c, key), y, piece), |data|);
            Seal(c, key, nonce, data) == done + piece + tag
  {
  }

  /** The plaintext is what was written followed by the decryption of the rest. */
  ghost predicate Decrypting(c: Cipher, key: bytes, ct: bytes, plain: bytes, done: bytes, rest: bytes,
                             cb: bytes, y: bytes)
    requires c.Lawful() && |cb| == BLOCK && |y| == BLOCK
  {
    && plain == done + Gctr(c, key, cb, rest)
    && Ghash(c, HashKey(c, key), Zeros(BLOCK), ct) == Ghash(c, HashKey(c, key), y, rest)
  }

  lemma RestOf(c: Cipher, key: bytes, ct: bytes, plain: bytes, done: bytes, rest: bytes, cb: bytes, y: bytes)
    returns (whole: bytes)
    requires c.Lawful() && |cb| == BLOCK && |y| == BLOCK
    requires Decrypting(c, key, ct, plain, done, rest, cb, y)
    ensures whole == Ghash(c, HashKey(c, key), y, rest) == Ghash(c, HashKey(c, key), Zeros(BLOCK), ct)
    ensures plain == done + Gctr(c, key, cb, rest) && |whole| == BLOCK
  {
    whole := Ghash(c, HashKey(c, key), y, rest);
  }

  lemma DecryptBlock(c: Cipher, key: bytes, ct: bytes, plain: bytes, done: bytes, rest: bytes, cb: bytes, y: bytes)
    requires c.Lawful() && |cb| == BLOCK && |y| == BLOCK && |rest| > BLOCK
    requires Decrypting(c, key, ct, plain, done, rest, cb, y)
    ensures var y' := Ghash(c, HashKey(c, key), y, rest[..BLOCK]);
            var piece := Gctr(c, key, cb, rest[..BLOCK]);
            Decrypting(c, key, ct, plain, done + piece, rest[BLOCK..], Advance(cb, 1), y')
  {
    var h, first, tail := HashKey(c, key), rest[..BLOCK], rest[BLOCK..];
    GctrBlock(c, key, cb, rest);
    Associative(done, Gctr(c, key, cb, first), Gctr(c, key, Inc32(cb), tail));
    assert Ghash(c, h, y, rest) == Ghash(c, h, Ghash(c, h, y, first), tail);
  }
}
