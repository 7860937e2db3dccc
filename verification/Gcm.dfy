/**
 AES-GCM without additional data: the one-shot specification of sections 7.1 and 7.2 of
 NIST SP 800-38D, over a block cipher and a field multiplication that stay uninterpreted.
 */
module Gcm {
  import opened Bytes
  import opened Bits

  const BLOCK: nat := 16
  const TAG: nat := 16

  /** The uninterpreted parts: the block cipher under a key, and the product in GF(2^128). */
  datatype Cipher = Cipher(encipher: (bytes, bytes) -> bytes, multiply: (bytes, bytes) -> bytes) {
    ghost predicate Lawful() {
      && (forall k, b :: |encipher(k, b)| == BLOCK)
      && (forall x, y :: |multiply(x, y)| == BLOCK)
    }
  }

  // ---------- exclusive or ----------

  function XorBits(a: nat, b: nat, w: nat): (r: nat)
    ensures r < Pow2(w)
    decreases w
  {
    if w == 0 then 0 else XorBits(a / 2, b / 2, w - 1) * 2 + (a % 2 + b % 2) % 2
  }

  lemma {:induction false} XorTwice(a: nat, b: nat, w: nat)
    requires a < Pow2(w)
    ensures XorBits(XorBits(a, b, w), b, w) == a
    decreases w
  {
    if w > 0 {
      var q := XorBits(a / 2, b / 2, w - 1);
      XorTwice(a / 2, b / 2, w - 1);
      FlipTwice(a, b, q);
    }
  }

  lemma FlipTwice(a: nat, b: nat, q: nat)
    ensures var r := q * 2 + (a % 2 + b % 2) % 2; r / 2 == q && (r % 2 + b % 2) % 2 == a % 2
  {
  }

  function XorByte(a: byte, b: byte): (r: byte) {
    Pow2Values();
    XorBits(a, b, 8)
  }

  /** x xor the front of the mask. */
  function Xor(x: bytes, mask: bytes): (r: bytes)
    requires |x| <= |mask|
    ensures |r| == |x|
  {
    seq(|x|, i requires 0 <= i < |x| => XorByte(x[i], mask[i]))
  }

  lemma XorIsInvolution(x: bytes, mask: bytes)
    requires |x| <= |mask|
    ensures Xor(Xor(x, mask), mask) == x
  {
    Pow2Values();
    forall i | 0 <= i < |x|
      ensures XorByte(XorByte(x[i], mask[i]), mask[i]) == x[i]
    {
      XorTwice(x[i], mask[i], 8);
    }
  }

  // ---------- counter mode and the hash ----------

  function BigEndianBytes(n: nat, w: nat): (b: bytes)
    ensures |b| == w
  {
    if w == 0 then [] else BigEndianBytes(n / 256, w - 1) + [n % 256]
  }

  function Inc32(cb: bytes): (r: bytes)
    requires |cb| == BLOCK
    ensures |r| == BLOCK
  {
    cb[..12] + BigEndianBytes(BigEndian(cb[12..]) + 1, 4)
  }

  function Advance(cb: bytes, n: nat): (r: bytes)
    requires |cb| == BLOCK
    ensures |r| == BLOCK
    decreases n
  {
    if n == 0 then cb else Advance(Inc32(cb), n - 1)
  }

  function Gctr(c: Cipher, key: bytes, cb: bytes, x: bytes): (r: bytes)
    requires c.Lawful() && |cb| == BLOCK
    ensures |r| == |x|
    decreases |x|
  {
    var mask := c.encipher(key, cb);
    if |x| <= BLOCK then Xor(x, mask)
    else Xor(x[..BLOCK], mask) + Gctr(c, key, Inc32(cb), x[BLOCK..])
  }

  function Absorb(c: Cipher, h: bytes, y: bytes, block: bytes): (r: bytes)
    requires c.Lawful() && |y| == BLOCK && |block| <= BLOCK
    ensures |r| == BLOCK
  {
    c.multiply(Xor(y, block + Zeros(BLOCK - |block|)), h)
  }

  function Ghash(c: Cipher, h: bytes, y: bytes, x: bytes): (r: bytes)
    requires c.Lawful() && |y| == BLOCK
    ensures |r| == BLOCK
    decreases |x|
  {
    if |x| == 0 then y
    else if |x| <= BLOCK then Absorb(c, h, y, x)
    else Ghash(c, h, Absorb(c, h, y, x[..BLOCK]), x[BLOCK..])
  }

  function HashKey(c: Cipher, key: bytes): bytes {
    c.encipher(key, Zeros(BLOCK))
  }

  function LengthBlock(n: nat): (b: bytes)
    ensures |b| == BLOCK
  {
    Zeros(8) + BigEndianBytes(8 * n, 8)
  }

  /** The pre-counter block of a nonce. */
  function J0(c: Cipher, key: bytes, nonce: bytes): (r: bytes)
    requires c.Lawful()
    ensures |r| == BLOCK
  {
    if |nonce| == 12 then nonce + [0, 0, 0, 1]
    else
      var h := HashKey(c, key);
      Absorb(c, h, Ghash(c, h, Zeros(BLOCK), nonce), LengthBlock(|nonce|))
  }

  /** The tag, from the hash of n bytes of ciphertext. */
  function TagOf(c: Cipher, key: bytes, nonce: bytes, y: bytes, n: nat): (t: bytes)
    requires c.Lawful() && |y| == BLOCK
    ensures |t| == TAG
  {
    Xor(Absorb(c, HashKey(c, key), y, LengthBlock(n)), c.encipher(key, J0(c, key, nonce)))
  }

  // ---------- one shot ----------

  function Keystreamed(c: Cipher, key: bytes, nonce: bytes, x: bytes): (r: bytes)
    requires c.Lawful()
    ensures |r| == |x|
  {
    Gctr(c, key, Inc32(J0(c, key, nonce)), x)
  }

  function Tag(c: Cipher, key: bytes, nonce: bytes, ct: bytes): (t: bytes)
    requires c.Lawful()
    ensures |t| == TAG
  {
    TagOf(c, key, nonce, Ghash(c, HashKey(c, key), Zeros(BLOCK), ct), |ct|)
  }

  /** Authenticated encryption: the ciphertext followed by its tag. */
  function Seal(c: Cipher, key: bytes, nonce: bytes, plain: bytes): (r: bytes)
    requires c.Lawful()
  {
    var ct := Keystreamed(c, key, nonce, plain);
    ct + Tag(c, key, nonce, ct)
  }

  /** Authenticated decryption. */
  function Open(c: Cipher, key: bytes, nonce: bytes, sealed: bytes): (r: Option<bytes>)
    requires c.Lawful()
  {
    if |sealed| < TAG then None
    else
      var n := |sealed| - TAG;
      if Tag(c, key, nonce, sealed[..n]) == sealed[n..]
      then Some(Keystreamed(c, key, nonce, sealed[..n])) else None
  }

  lemma {:induction false} GctrTwice(c: Cipher, key: bytes, cb: bytes, x: bytes)
    requires c.Lawful() && |cb| == BLOCK
    ensures Gctr(c, key, cb, Gctr(c, key, cb, x)) == x
    decreases |x|
  {
    var mask := c.encipher(key, cb);
    if |x| <= BLOCK {
      XorIsInvolution(x, mask);
    } else {
      var r := Gctr(c, key, cb, x);
      assert r[..BLOCK] == Xor(x[..BLOCK], mask);
      assert r[BLOCK..] == Gctr(c, key, Inc32(cb), x[BLOCK..]);
      XorIsInvolution(x[..BLOCK], mask);
      GctrTwice(c, key, Inc32(cb), x[BLOCK..]);
      assert x == x[..BLOCK] + x[BLOCK..];
    }
  }

  /** Opening recovers exactly what was sealed, and nothing else opens. */
  lemma OpenIffSealed(c: Cipher, key: bytes, nonce: bytes, sealed: bytes, plain: bytes)
    requires c.Lawful()
    ensures Open(c, key, nonce, sealed) == Some(plain) <==> sealed == Seal(c, key, nonce, plain)
  {
    var cb := Inc32(J0(c, key, nonce));
    GctrTwice(c, key, cb, plain);
    if sealed == Seal(c, key, nonce, plain) {
      assert sealed[..|plain|] == Keystreamed(c, key, nonce, plain);
    }
    if Open(c, key, nonce, sealed) == Some(plain) {
      var n := |sealed| - TAG;
      GctrTwice(c, key, cb, sealed[..n]);
      assert sealed == sealed[..n] + sealed[n..];
    }
  }

  lemma SealedLength(c: Cipher, key: bytes, nonce: bytes, plain: bytes)
    requires c.Lawful()
    ensures |Seal(c, key, nonce, plain)| == |plain| + TAG
  {
  }

  // ---------- what one chained block does ----------

  lemma GctrBlock(c: Cipher, key: bytes, cb: bytes, x: bytes)
    requires c.Lawful() && |cb| == BLOCK && |x| > BLOCK
    ensures Gctr(c, key, cb, x) == Gctr(c, key, cb, x[..BLOCK]) + Gctr(c, key, Inc32(cb), x[BLOCK..])
  {
  }

  lemma GhashBlock(c: Cipher, h: bytes, y: bytes, first: bytes, rest: bytes)
    requires c.Lawful() && |y| == BLOCK && |first| == BLOCK
    ensures Ghash(c, h, y, first + rest) == Ghash(c, h, Ghash(c, h, y, first), rest)
  {
    assert (first + rest)[..BLOCK] == first && (first + rest)[BLOCK..] == rest;
    if rest == [] {
      assert first + rest == first;
    }
  }
}
