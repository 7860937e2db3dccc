/** HKDF as in RFC 5869 over an uninterpreted HMAC, and the two builds that derive keys with it. */
module Hkdf {
  import opened Bytes

  const HASH: nat := 32

  /** SHA-256 and HMAC-SHA-256 (key, message). */
  datatype Hash = Hash(sha256: bytes -> bytes, hmac: (bytes, bytes) -> bytes) {
    ghost predicate Lawful() {
      && (forall m :: |sha256(m)| == HASH)
      && (forall k, m :: |hmac(k, m)| == HASH)
    }
  }

  // ---------- the specification ----------

  /** T(i) of section 2.3 of RFC 5869. */
  function T(h: Hash, prk: bytes, info: bytes, i: nat): (t: bytes)
    requires i <= 255
  {
    if i == 0 then [] else h.hmac(prk, T(h, prk, info, i - 1) + info + [i])
  }

  /** T(1) | T(2) | ... | T(n) */
  function Stream(h: Hash, prk: bytes, info: bytes, n: nat): bytes
    requires n <= 255
  {
    if n == 0 then [] else Stream(h, prk, info, n - 1) + T(h, prk, info, n)
  }

  lemma {:induction false} StreamLength(h: Hash, prk: bytes, info: bytes, n: nat)
    requires h.Lawful() && n <= 255
    ensures |Stream(h, prk, info, n)| == n * HASH
  {
    if n > 0 { StreamLength(h, prk, info, n - 1); }
  }

  function Rounds(size: nat): nat {
    (size + HASH - 1) / HASH
  }

  const MAX_SIZE: nat := 255 * HASH

  /** The output keying material: the first size bytes of the stream. */
  function Expanded(h: Hash, prk: bytes, info: bytes, size: nat): (okm: bytes)
    requires h.Lawful() && size <= MAX_SIZE
    ensures |okm| == size
  {
    StreamLength(h, prk, info, Rounds(size));
    Stream(h, prk, info, Rounds(size))[..size]
  }

  /** Extract then expand. */
  function Hkdf(h: Hash, ikm: bytes, salt: bytes, info: bytes, size: nat): (okm: bytes)
    requires h.Lawful() && size <= MAX_SIZE
    ensures |okm| == size
  {
    Expanded(h, h.hmac(salt, ikm), info, size)
  }

  lemma {:induction false} StreamPrefix(h: Hash, prk: bytes, info: bytes, m: nat, n: nat)
    requires h.Lawful() && m <= n <= 255
    ensures Stream(h, prk, info, m) <= Stream(h, prk, info, n)
    decreases n
  {
    if m < n { StreamPrefix(h, prk, info, m, n - 1); }
  }

  /** Shorter outputs are prefixes of longer ones. */
  lemma ShorterIsPrefix(h: Hash, prk: bytes, info: bytes, a: nat, b: nat)
    requires h.Lawful() && a <= b <= MAX_SIZE
    ensures Expanded(h, prk, info, a) <= Expanded(h, prk, info, b)
  {
    StreamPrefix(h, prk, info, Rounds(a), Rounds(b));
    StreamLength(h, prk, info, Rounds(a));
    StreamLength(h, prk, info, Rounds(b));
  }

  // ---------- beyond the limit: the byte counter wraps ----------

  /** The blocks the loop writes for any number of rounds; its counter is one byte wide. */
  function Block(h: Hash, prk: bytes, info: bytes, i: nat): (t: bytes) {
    if i == 0 then [] else h.hmac(prk, Block(h, prk, info, i - 1) + info + [i % 256])
  }

  function Written(h: Hash, prk: bytes, info: bytes, n: nat): (w: bytes) {
    if n == 0 then [] else Written(h, prk, info, n - 1) + Block(h, prk, info, n)
  }

  lemma {:induction false} WrittenLength(h: Hash, prk: bytes, info: bytes, n: nat)
    requires h.Lawful()
    ensures |Written(h, prk, info, n)| == n * HASH
  {
    if n > 0 { WrittenLength(h, prk, info, n - 1); }
  }

  lemma {:induction false} BlockIsT(h: Hash, prk: bytes, info: bytes, i: nat)
    requires i <= 255
    ensures Block(h, prk, info, i) == T(h, prk, info, i)
  {
    if i > 0 { BlockIsT(h, prk, info, i - 1); }
  }

  /** Up to 255 rounds the loop writes the RFC's stream. */
  lemma {:induction false} WrittenIsStream(h: Hash, prk: bytes, info: bytes, n: nat)
    requires n <= 255
    ensures Written(h, prk, info, n) == Stream(h, prk, info, n)
  {
    if n > 0 {
      WrittenIsStream(h, prk, info, n - 1);
      BlockIsT(h, prk, info, n);
    }
  }

  /** counter++ on a byte that counts i modulo 256 */
  function NextCounter(counter: byte, i: nat): (c: byte)
    requires counter == i % 256
    ensures c == (i + 1) % 256
  {
    (counter + 1) % 256
  }

  /**
   Output of 256 blocks is not refused: the last one is hashed with the counter back at 0, for which
   the RFC has no block.
   */
  lemma CounterWrapsAtLimit(h: Hash, prk: bytes, info: bytes)
    requires h.Lawful()
    ensures Rounds(MAX_SIZE + HASH) == 256
    ensures
      Written(h, prk, info, 256) ==
      Stream(h, prk, info, 255) + h.hmac(prk, T(h, prk, info, 255) + info + [0])
  {
    hide Block, Written, Stream, T;
    WrittenIsStream(h, prk, info, 255);
    BlockIsT(h, prk, info, 255);
    LastBlock(h, prk, info, 256);
  }

  lemma LastBlock(h: Hash, prk: bytes, info: bytes, n: nat)
    requires n > 0
    ensures Written(h, prk, info, n)
         == Written(h, prk, info, n - 1) + h.hmac(prk, Block(h, prk, info, n - 1) + info + [n % 256])
  {
  }

  // ---------- byte by byte ----------

  /** Blocks each hashed from the one before, the info and a one-byte counter that starts at 1. */
  ghost predicate AreBlocks(h: Hash, prk: bytes, info: bytes, ts: seq<bytes>) {
    forall i :: 0 <= i < |ts| ==> ts[i] == h.hmac(prk, Before(ts, i) + info + [(i + 1) % 256])
  }

  function Before(ts: seq<bytes>, i: nat): bytes
    requires i <= |ts|
  {
    if i == 0 then [] else ts[i - 1]
  }

  /** Output keying material of section 2.3 of RFC 5869: byte j is byte j % 32 of block j / 32. */
  ghost predicate IsOkm(h: Hash, prk: bytes, info: bytes, size: nat, okm: bytes) {
    |okm| == size &&
    exists ts: seq<bytes> ::
      && |ts| == (size + 31) / 32
      && AreBlocks(h, prk, info, ts)
      && forall j :: 0 <= j < size ==> |ts[j / 32]| == 32 && okm[j] == ts[j / 32][j % 32]
  }

  lemma {:induction false} BlocksAre(h: Hash, prk: bytes, info: bytes, ts: seq<bytes>, i: nat)
    requires AreBlocks(h, prk, info, ts) && i < |ts|
    ensures ts[i] == Block(h, prk, info, i + 1)
  {
    hide Block, AreBlocks;
    BlockStep(h, prk, info, i);
    AtIndex(h, prk, info, ts, i);
    if i > 0 {
      BlocksAre(h, prk, info, ts, i - 1);
    }
  }

  lemma AtIndex(h: Hash, prk: bytes, info: bytes, ts: seq<bytes>, i: nat)
    requires AreBlocks(h, prk, info, ts) && i < |ts|
    ensures ts[i] == h.hmac(prk, Before(ts, i) + info + [(i + 1) % 256])
  {
    hide Before;
  }

  lemma {:induction false} WrittenByte(h: Hash, prk: bytes, info: bytes, n: nat, j: nat)
    requires h.Lawful() && j < 32 * n
    ensures |Written(h, prk, info, n)| == 32 * n && |Block(h, prk, info, j / 32 + 1)| == 32
    ensures Written(h, prk, info, n)[j] == Block(h, prk, info, j / 32 + 1)[j % 32]
  {
    WrittenLength(h, prk, info, n);
    WrittenLength(h, prk, info, n - 1);
    if j < 32 * (n - 1) {
      WrittenByte(h, prk, info, n - 1, j);
    } else {
      assert j / 32 == n - 1;
    }
  }

  /** The loop's output is that, for every size, and nothing else is. */
  lemma WrittenIsOkm(h: Hash, prk: bytes, info: bytes, size: nat, okm: bytes)
    requires h.Lawful()
    ensures size <= |Written(h, prk, info, Rounds(size))|
    ensures IsOkm(h, prk, info, size, okm) <==> okm == Written(h, prk, info, Rounds(size))[..size]
  {
    hide Written, Block, IsOkm;
    var n := Rounds(size);
    WrittenLength(h, prk, info, n);
    if IsOkm(h, prk, info, size, okm) {
      OkmIsWritten(h, prk, info, size, okm);
    }
    if okm == Written(h, prk, info, n)[..size] {
      WrittenGivesOkm(h, prk, info, size, okm);
    }
  }

  lemma WrittenGivesOkm(h: Hash, prk: bytes, info: bytes, size: nat, okm: bytes)
    requires h.Lawful() && size <= |Written(h, prk, info, Rounds(size))|
    requires okm == Written(h, prk, info, Rounds(size))[..size]
    ensures IsOkm(h, prk, info, size, okm)
  {
    hide Written, Block, AreBlocks;
    var n := Rounds(size);
    var ts := BlocksExist(h, prk, info, n);
    forall j | 0 <= j < size ensures |ts[j / 32]| == 32 && okm[j] == ts[j / 32][j % 32] {
      WrittenByte(h, prk, info, n, j);
    }
  }

  lemma BlocksExist(h: Hash, prk: bytes, info: bytes, n: nat) returns (ts: seq<bytes>)
    ensures |ts| == n && AreBlocks(h, prk, info, ts)
    ensures forall i :: 0 <= i < n ==> ts[i] == Block(h, prk, info, i + 1)
  {
    hide Block, Before;
    ts := seq(n, i requires 0 <= i => Block(h, prk, info, i + 1));
    forall i | 0 <= i < n ensures ts[i] == h.hmac(prk, Before(ts, i) + info + [(i + 1) % 256]) {
      BlockStep(h, prk, info, i);
      BeforeIs(ts, i);
    }
  }

  lemma BeforeIs(ts: seq<bytes>, i: nat)
    requires i <= |ts|
    ensures Before(ts, i) == if i == 0 then [] else ts[i - 1]
  {
  }

  lemma OkmIsWritten(h: Hash, prk: bytes, info: bytes, size: nat, okm: bytes)
    requires h.Lawful() && IsOkm(h, prk, info, size, okm)
    requires size <= |Written(h, prk, info, Rounds(size))|
    ensures okm == Written(h, prk, info, Rounds(size))[..size]
  {
    hide Written, Block, AreBlocks;
    var ts: seq<bytes> :|
      && |ts| == (size + 31) / 32
      && AreBlocks(h, prk, info, ts)
      && forall j :: 0 <= j < size ==> |ts[j / 32]| == 32 && okm[j] == ts[j / 32][j % 32];
    forall j | 0 <= j < size ensures okm[j] == Written(h, prk, info, Rounds(size))[j] {
      BlocksAre(h, prk, info, ts, j / 32);
      WrittenByte(h, prk, info, Rounds(size), j);
    }
  }

  lemma BlockStep(h: Hash, prk: bytes, info: bytes, i: nat)
    ensures Block(h, prk, info, 0) == []
    ensures Block(h, prk, info, i + 1) == h.hmac(prk, Block(h, prk, info, i) + info + [(i + 1) % 256])
  {
  }

  // ---------- the Windows build ----------

  /** A keyed hash object: the provider accumulates what it is fed until it is finished. */
  class HashHandle {
    const h: Hash
    const key: bytes
    var fed: bytes

    constructor (h: Hash, key: bytes)
      ensures this.h == h && this.key == key && fed == []
    {
      this.h, this.key, fed := h, key, [];
    }

    method HashData(data: bytes)
      modifies this
      ensures fed == old(fed) + data
    {
      fed := fed + data;
    }

    method Finish() returns (digest: bytes)
      ensures digest == h.hmac(key, fed)
    {
      digest := h.hmac(key, fed);
    }
  }

  class BcryptHkdf {
    const h: Hash
    const secret: bytes

    constructor (h: Hash, secret: bytes)
      ensures this.h == h && this.secret == secret
    {
      this.h, this.secret := h, secret;
    }

    method DeriveKey(salt: bytes, info: bytes, keySize: nat) returns (okm: bytes)
      requires h.Lawful()
      ensures keySize <= MAX_SIZE ==> okm == Hkdf(h, h.sha256(secret), salt, info, keySize)
      ensures IsOkm(h, h.hmac(salt, h.sha256(secret)), info, keySize, okm)
    {
      hide IsOkm;
      var prk := Extract(salt);
      okm := Expand(prk, info, keySize);
      if keySize <= MAX_SIZE {
        WrittenIsStream(h, prk, info, Rounds(keySize));
      }
    }

    method Extract(salt: bytes) returns (prk: bytes)
      ensures prk == h.hmac(salt, h.sha256(secret))
    {
      var interimPrk := h.sha256(secret);
      prk := h.hmac(salt, interimPrk);
    }

    /** One pass of the loop: the previous block if there is one, the info and the counter. */
    method HashRound(prk: bytes, first: bool, previous: bytes, info: bytes, counter: byte) returns (t: bytes)
      requires first ==> previous == []
      ensures t == h.hmac(prk, previous + info + [counter])
    {
      var hash := new HashHandle(h, prk);
      if !first {
        hash.HashData(previous);
      }
      assert hash.fed == previous;
      hash.HashData(info);
      hash.HashData([counter]);
      t := hash.Finish();
    }

    method Expand(prk: bytes, info: bytes, keySize: nat) returns (okm: bytes)
      requires h.Lawful()
      ensures |okm| == keySize <= |Written(h, prk, info, Rounds(keySize))|
      ensures okm == Written(h, prk, info, Rounds(keySize))[..keySize]
      ensures IsOkm(h, prk, info, keySize, okm)
    {
      hide Block, Written, IsOkm;
      var counter: byte := 1;
      var numRounds := Rounds(keySize);
      var tBuffer := new byte[numRounds * HASH](_ => 0);
      var i := 0;
      NothingWritten(h, prk, info);
      while i < numRounds
        invariant i <= numRounds && counter == (i + 1) % 256
        invariant tBuffer.Length == numRounds * HASH
        invariant tBuffer[..i * HASH] == Written(h, prk, info, i)
      {
        OneBlockMore(h, prk, info, i, counter);
        var previous := if i > 0 then tBuffer[..i * HASH][(i - 1) * HASH..] else [];
        var t := HashRound(prk, i == 0, previous, info, counter);
        counter := NextCounter(counter, i + 1);
        Store(t, tBuffer, i * HASH);
        i := i + 1;
      }
      WrittenLength(h, prk, info, numRounds);
      okm := tBuffer[..keySize];
      WrittenIsOkm(h, prk, info, keySize, okm);
    }
  }

  lemma NothingWritten(h: Hash, prk: bytes, info: bytes)
    ensures Written(h, prk, info, 0) == []
  {
  }

  /** A round hashes the end of what is written and writes the next block behind it. */
  lemma OneBlockMore(h: Hash, prk: bytes, info: bytes, i: nat, counter: byte)
    requires h.Lawful() && counter == (i + 1) % 256
    ensures |Written(h, prk, info, i)| == i * HASH
    ensures
      var previous := if i > 0 then Written(h, prk, info, i)[(i - 1) * HASH..] else [];
      var t := h.hmac(prk, previous + info + [counter]);
      |t| == HASH && Written(h, prk, info, i + 1) == Written(h, prk, info, i) + t
  {
    WrittenLength(h, prk, info, i);
    if i > 0 {
      WrittenLength(h, prk, info, i - 1);
      var front, last := Written(h, prk, info, i - 1), Block(h, prk, info, i);
      assert Written(h, prk, info, i) == front + last;
      assert (front + last)[|front|..] == last;
    } else {
      assert Block(h, prk, info, 0) == [];
    }
    assert Block(h, prk, info, i + 1) == h.hmac(prk, Block(h, prk, info, i) + info + [counter]);
  }

  // ---------- the Linux build ----------

  /** The library's key-derivation context, in extract-and-expand mode. */
  class OsslHkdf {
    const h: Hash
    const key: bytes
    var salt: bytes
    var info: bytes

    constructor (h: Hash, secret: bytes)
      ensures this.h == h && key == h.sha256(secret) && salt == [] && info == []
    {
      this.h, key, salt, info := h, h.sha256(secret), [], [];
    }

    /** A second derivation on one object would go on from the info of the first. */
    method DeriveKey(salt: bytes, info: bytes, keySize: nat) returns (okm: bytes)
      requires h.Lawful() && 0 < keySize <= MAX_SIZE
      modifies this
      ensures okm == Hkdf(h, key, salt, old(this.info) + info, keySize)
      ensures this.salt == salt && this.info == old(this.info) + info
    {
      var prk := Extract(salt);
      okm := Expand(prk, info, keySize);
    }

    method Extract(salt: bytes) returns (prk: bytes)
      modifies this`salt
      ensures this.salt == salt && prk == Zeros(HASH)
    {
      this.salt := salt;
      prk := Zeros(HASH);
    }

    method Expand(prk: bytes, info: bytes, keySize: nat) returns (okm: bytes)
      requires h.Lawful() && 0 < keySize <= MAX_SIZE
      modifies this`info
      ensures this.info == old(this.info) + info
      ensures okm == Hkdf(h, key, salt, this.info, keySize)
    {
      this.info := this.info + info;
      okm := Hkdf(h, key, salt, this.info, keySize);
    }
  }

  /** Both builds derive the same key from the same shared secret. */
  method DeriveOnBoth(h: Hash, secret: bytes, salt: bytes, info: bytes, keySize: nat)
    returns (windows: bytes, linux: bytes)
    requires h.Lawful() && 0 < keySize <= MAX_SIZE
    ensures windows == linux == Hkdf(h, h.sha256(secret), salt, info, keySize)
    ensures IsOkm(h, h.hmac(salt, h.sha256(secret)), info, keySize, linux)
  {
    var bcrypt := new BcryptHkdf(h, secret);
    var ossl := new OsslHkdf(h, secret);
    windows := bcrypt.DeriveKey(salt, info, keySize);
    linux := ossl.DeriveKey(salt, info, keySize);
    assert [] + info == info;
  }
}
