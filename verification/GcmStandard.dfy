/**
 AES-GCM as sections 6 and 7 of NIST SP 800-38D write it down, byte by byte and block by block with
 explicit indices and integers, and that sealing and opening are exactly that.
 */
module GcmStandard {
  import opened Bytes
  import opened Bits
  import opened Gcm

  // ---------- exclusive or, bit by bit ----------

  /** Bit k of a number, the least significant being bit 0: halve it k times and look at the parity. */
  predicate Bit(v: nat, k: nat) {
    if k == 0 then v % 2 == 1 else Bit(v / 2, k - 1)
  }

  /** For the bits of a byte: the quotient by the power of two. */
  lemma BitOfByte(v: byte)
    ensures Bit(v, 0) == (v % 2 == 1) && Bit(v, 1) == (v / 2 % 2 == 1)
    ensures Bit(v, 2) == (v / 4 % 2 == 1) && Bit(v, 3) == (v / 8 % 2 == 1)
    ensures Bit(v, 4) == (v / 16 % 2 == 1) && Bit(v, 5) == (v / 32 % 2 == 1)
    ensures Bit(v, 6) == (v / 64 % 2 == 1) && Bit(v, 7) == (v / 128 % 2 == 1)
  {
    Halved(v, 1);
    Halved(v, 2);
    Halved(v, 4);
    Halved(v, 8);
    Halved(v, 16);
    Halved(v, 32);
    Halved(v, 64);
    BitTwice(v, v / 2, v / 4, v / 8, v / 16, v / 32, v / 64, v / 128);
  }

  lemma Halved(v: byte, p: nat)
    requires p in {1, 2, 4, 8, 16, 32, 64}
    ensures v / p / 2 == v / (2 * p)
  {
  }

  lemma BitTwice(a: nat, b: nat, c: nat, d: nat, e: nat, f: nat, g: nat, h: nat)
    requires b == a / 2 && c == b / 2 && d == c / 2 && e == d / 2 && f == e / 2 && g == f / 2 && h == g / 2
    ensures Bit(a, 0) == (a % 2 == 1) && Bit(a, 1) == (b % 2 == 1)
    ensures Bit(a, 2) == (c % 2 == 1) && Bit(a, 3) == (d % 2 == 1)
    ensures Bit(a, 4) == (e % 2 == 1) && Bit(a, 5) == (f % 2 == 1)
    ensures Bit(a, 6) == (g % 2 == 1) && Bit(a, 7) == (h % 2 == 1)
  {
    hide Bit;
    NextBit(a, b);
    NextBit(b, c);
    NextBit(c, d);
    NextBit(d, e);
    NextBit(e, f);
    NextBit(f, g);
    NextBit(g, h);
    LowestBit(a);
    LowestBit(b);
    LowestBit(c);
    LowestBit(d);
    LowestBit(e);
    LowestBit(f);
    LowestBit(g);
    LowestBit(h);
  }

  lemma NextBit(v: nat, half: nat)
    requires half == v / 2
    ensures Bit(v, 1) == Bit(half, 0) && Bit(v, 2) == Bit(half, 1) && Bit(v, 3) == Bit(half, 2)
    ensures Bit(v, 4) == Bit(half, 3) && Bit(v, 5) == Bit(half, 4) && Bit(v, 6) == Bit(half, 5)
    ensures Bit(v, 7) == Bit(half, 6)
  {
  }

  lemma LowestBit(v: nat)
    ensures Bit(v, 0) == (v % 2 == 1)
  {
  }

  /** Each bit of r differs from that of d exactly where the bit of m is set. */
  ghost predicate Flipped(r: byte, d: byte, m: byte) {
    forall k :: 0 <= k < 8 ==> (Bit(r, k) != Bit(d, k) <==> Bit(m, k))
  }

  lemma {:induction false} XorBit(a: nat, b: nat, w: nat, k: nat)
    requires k < w
    ensures Bit(XorBits(a, b, w), k) == (Bit(a, k) != Bit(b, k))
  {
    var q := XorBits(a / 2, b / 2, w - 1);
    FlipTwice(a, b, q);
    if k > 0 {
      XorBit(a / 2, b / 2, w - 1, k - 1);
    }
  }

  lemma {:induction false} BitsDetermine(a: nat, b: nat, w: nat)
    requires a < Pow2(w) && b < Pow2(w)
    requires forall k :: 0 <= k < w ==> Bit(a, k) == Bit(b, k)
    ensures a == b
  {
    if w > 0 {
      assert Bit(a, 0) == Bit(b, 0);
      forall k | 0 <= k < w - 1 ensures Bit(a / 2, k) == Bit(b / 2, k) {
        assert Bit(a, k + 1) == Bit(b, k + 1);
      }
      BitsDetermine(a / 2, b / 2, w - 1);
    }
  }

  /** Which makes it their exclusive or. */
  lemma FlippedIff(r: byte, d: byte, m: byte)
    ensures Flipped(r, d, m) <==> r == XorByte(d, m)
  {
    hide Bit, XorBits;
    Pow2Values();
    forall k | 0 <= k < 8 ensures Bit(XorByte(d, m), k) == (Bit(d, k) != Bit(m, k)) {
      XorBit(d, m, 8, k);
    }
    if Flipped(r, d, m) {
      BitsDetermine(r, XorByte(d, m), 8);
    }
  }

  // ---------- the standard ----------

  /** The integer of four bytes, most significant first. */
  function Int32(b: bytes): (n: nat)
    requires |b| == 4
  {
    var b0: int, b1: int, b2: int, b3: int := b[0], b[1], b[2], b[3];
    0x100_0000 * b0 + 0x1_0000 * b1 + 0x100 * b2 + b3
  }

  /**
   The counter block of the n-th block of text: the pre-counter block with its last 32 bits n + 1
   further, modulo 2^32.
   */
  ghost predicate IsCounterBlock(cb: bytes, j0: bytes, n: nat) {
    && |cb| == |j0| == 16
    && cb[..12] == j0[..12]
    && Int32(cb[12..]) == (Int32(j0[12..]) + n + 1) % 0x1_0000_0000
  }

  /** The k-th block of a string, filled up with zeros. */
  function BlockOf(x: bytes, k: nat): (b: bytes)
    ensures |b| == 16
  {
    seq(16, j requires 0 <= j < 16 => if 16 * k + j < |x| then x[16 * k + j] else 0)
  }

  function BlockCount(n: nat): nat {
    (n + 15) / 16
  }

  /** A block that differs from y exactly in the bits of b. */
  ghost predicate FlippedBlock(r: bytes, y: bytes, b: bytes) {
    |r| == |y| == |b| == 16 && forall j :: 0 <= j < 16 ==> Flipped(r[j], y[j], b[j])
  }

  const ZERO_BLOCK: bytes := [0, 0, 0, 0, 0, 0, 0, 0, 0, 0, 0, 0, 0, 0, 0, 0]

  /** The running hashes of a string: from zeros, each block flipped in and the result multiplied. */
  ghost predicate AreHashes(c: Cipher, h: bytes, x: bytes, ys: seq<bytes>) {
    && |ys| == BlockCount(|x|) + 1 && ys[0] == ZERO_BLOCK
    && forall k :: 0 <= k < BlockCount(|x|) ==> Multiplied(c, h, ys[k], BlockOf(x, k), ys[k + 1])
  }

  /** One step of the hash. */
  ghost predicate Multiplied(c: Cipher, h: bytes, y: bytes, block: bytes, next: bytes) {
    exists flipped :: FlippedBlock(flipped, y, block) && next == c.multiply(flipped, h)
  }

  /** Eight zero bytes and the length in bits as a word of 64 bits. */
  ghost predicate IsLengthBlock(b: bytes, n: nat) {
    && |b| == 16
    && b[..8] == [0, 0, 0, 0, 0, 0, 0, 0]
    && 0x1_0000_0000 * Int32(b[8..12]) + Int32(b[12..]) == 8 * n % 0x1_0000_0000_0000_0000
  }

  /** The hash of a string closed by its length. */
  ghost predicate IsClosedHash(c: Cipher, h: bytes, x: bytes, s: bytes) {
    exists ys: seq<bytes>, lengths: bytes ::
      && |ys| == BlockCount(|x|) + 1
      && AreHashes(c, h, x, ys)
      && IsLengthBlock(lengths, |x|)
      && Multiplied(c, h, ys[BlockCount(|x|)], lengths, s)
  }

  ghost predicate IsJ0(c: Cipher, key: bytes, nonce: bytes, j0: bytes) {
    if |nonce| == 12 then j0 == nonce + [0, 0, 0, 1]
    else IsClosedHash(c, c.encipher(key, ZERO_BLOCK), nonce, j0)
  }

  /** Each byte of the text with the bits flipped of the enciphered counter block. */
  ghost predicate IsCiphertext(c: Cipher, key: bytes, j0: bytes, data: bytes, ct: bytes) {
    |ct| == |data| &&
    forall i, cb :: 0 <= i < |data| && IsCounterBlock(cb, j0, i / 16) ==>
      var mask := c.encipher(key, cb);
      |mask| == 16 && Flipped(ct[i], data[i], mask[i % 16])
  }

  /** The closed hash of the ciphertext flipped with the enciphered pre-counter block. */
  ghost predicate IsTag(c: Cipher, key: bytes, j0: bytes, ct: bytes, tag: bytes) {
    exists s :: IsClosedHash(c, c.encipher(key, ZERO_BLOCK), ct, s) && FlippedBlock(tag, s, c.encipher(key, j0))
  }

  /** Sealed text, as the standard has it: the ciphertext and then sixteen bytes of tag. */
  ghost predicate IsSealed(c: Cipher, key: bytes, nonce: bytes, data: bytes, r: bytes) {
    |r| == |data| + 16 &&
    exists j0 ::
      && IsJ0(c, key, nonce, j0)
      && IsCiphertext(c, key, j0, data, r[..|data|])
      && IsTag(c, key, j0, r[..|data|], r[|data|..])
  }

  // ---------- words ----------

  /** The low 32 bits of a number, as bytes, are its remainder. */
  lemma WordHolds(v: nat, hi: nat)
    requires hi == v / 256 / 256 / 256 / 256
    ensures |BigEndianBytes(v, 4)| == 4
    ensures Int32(BigEndianBytes(v, 4)) == v % 0x1_0000_0000
    ensures v == 0x1_0000_0000 * hi + v % 0x1_0000_0000
  {
    var t1, t2, t3 := v / 256, v / 256 / 256, v / 256 / 256 / 256;
    assert BigEndianBytes(t3, 1) == [] + [t3 % 256];
    assert BigEndianBytes(t2, 2) == BigEndianBytes(t3, 1) + [t2 % 256];
    assert BigEndianBytes(t1, 3) == BigEndianBytes(t2, 2) + [t1 % 256];
    assert BigEndianBytes(v, 4) == [t3 % 256, t2 % 256, t1 % 256, v % 256];
    Remainder32(v, t1, t2, t3, hi);
  }

  lemma Remainder32(v: nat, t1: nat, t2: nat, t3: nat, hi: nat)
    requires t1 == v / 256 && t2 == t1 / 256 && t3 == t2 / 256 && hi == t3 / 256
    ensures
      var low := 0x100_0000 * (t3 % 256) + 0x1_0000 * (t2 % 256) + 0x100 * (t1 % 256) + v % 256;
      v == 0x1_0000_0000 * hi + low && low == v % 0x1_0000_0000
  {
    var low := 0x100_0000 * (t3 % 256) + 0x1_0000 * (t2 % 256) + 0x100 * (t1 % 256) + v % 256;
    assert v == 0x1_0000_0000 * hi + low && 0 <= low < 0x1_0000_0000;
    Quotient(v, hi, low);
  }

  lemma Quotient(v: int, hi: int, low: int)
    requires v == 0x1_0000_0000 * hi + low && 0 <= low < 0x1_0000_0000
    ensures v % 0x1_0000_0000 == low && v / 0x1_0000_0000 == hi
  {
  }

  lemma WordInteger(b: bytes)
    requires |b| == 4
    ensures BigEndian(b) == Int32(b)
  {
    assert b[..3][..2][..1][..0] == [];
    assert b[..3][..2] == b[..2] && b[..2][..1] == b[..1];
    assert BigEndian(b[..1]) == b[0];
    assert BigEndian(b[..2]) == BigEndian(b[..1]) * 256 + b[1];
    assert BigEndian(b[..3]) == BigEndian(b[..2]) * 256 + b[2];
  }

  lemma {:induction false} BigEndianIsInjective(a: bytes, b: bytes)
    requires |a| == |b| && BigEndian(a) == BigEndian(b)
    ensures a == b
  {
    if a != [] {
      BigEndianIsInjective(a[..|a| - 1], b[..|b| - 1]);
      assert a == a[..|a| - 1] + [a[|a| - 1]] && b == b[..|b| - 1] + [b[|b| - 1]];
    }
  }

  lemma WordIsUnique(a: bytes, b: bytes)
    requires |a| == |b| == 4 && Int32(a) == Int32(b)
    ensures a == b
  {
    WordInteger(a);
    WordInteger(b);
    BigEndianIsInjective(a, b);
  }

  // ---------- counters ----------

  lemma Incremented(cb: bytes)
    requires |cb| == 16
    ensures Inc32(cb)[..12] == cb[..12]
    ensures Int32(Inc32(cb)[12..]) == (Int32(cb[12..]) + 1) % 0x1_0000_0000
  {
    hide BigEndianBytes, Int32;
    WordInteger(cb[12..]);
    var v := BigEndian(cb[12..]) + 1;
    WordHolds(v, v / 256 / 256 / 256 / 256);
    assert Inc32(cb)[12..] == BigEndianBytes(v, 4);
  }

  /** The n-th counter block of the chain is the n-th of the standard, and there is no other. */
  lemma {:induction false} AdvancedIsCounterBlock(j0: bytes, n: nat)
    requires |j0| == 16
    ensures IsCounterBlock(Advance(Inc32(j0), n), j0, n)
    decreases n
  {
    hide Inc32, Int32;
    if n == 0 {
      Incremented(j0);
    } else {
      AdvancedIsCounterBlock(j0, n - 1);
      AdvanceLast(Inc32(j0), n - 1);
      var cb := Advance(Inc32(j0), n - 1);
      Incremented(cb);
      PlusOne(Int32(j0[12..]) + n, 0x1_0000_0000);
    }
  }

  lemma PlusOne(v: nat, m: nat)
    requires m == 0x1_0000_0000
    ensures (v % m + 1) % m == (v + 1) % m
  {
  }

  lemma {:induction false} AdvanceLast(cb: bytes, n: nat)
    requires |cb| == 16
    ensures Advance(cb, n + 1) == Inc32(Advance(cb, n))
    decreases n
  {
    hide Inc32;
    if n > 0 {
      AdvanceLast(Inc32(cb), n - 1);
    }
  }

  lemma CounterBlockIsUnique(a: bytes, b: bytes, j0: bytes, n: nat)
    requires IsCounterBlock(a, j0, n) && IsCounterBlock(b, j0, n)
    ensures a == b
  {
    hide Int32;
    WordIsUnique(a[12..], b[12..]);
    assert a == a[..12] + a[12..] && b == b[..12] + b[12..];
  }

  /** Each byte of the keystream. */
  lemma {:induction false} KeystreamByte(c: Cipher, key: bytes, cb: bytes, x: bytes, i: nat)
    requires c.Lawful() && |cb| == 16 && i < |x|
    ensures |c.encipher(key, Advance(cb, i / 16))| == 16
    ensures Gctr(c, key, cb, x)[i] == XorByte(x[i], c.encipher(key, Advance(cb, i / 16))[i % 16])
    decreases |x|
  {
    hide XorByte, Inc32;
    if i < 16 {
      assert i / 16 == 0 && i % 16 == i;
    } else {
      assert i / 16 == (i - 16) / 16 + 1 && i % 16 == (i - 16) % 16;
      KeystreamByte(c, key, Inc32(cb), x[16..], i - 16);
    }
  }

  lemma KeystreamIsCiphertext(c: Cipher, key: bytes, j0: bytes, data: bytes, ct: bytes)
    requires c.Lawful() && |j0| == 16
    ensures IsCiphertext(c, key, j0, data, ct) <==> ct == Gctr(c, key, Inc32(j0), data)
  {
    hide Flipped, XorByte, Inc32, IsCounterBlock, Gctr, Advance;
    var g := Gctr(c, key, Inc32(j0), data);
    forall i | 0 <= i < |data|
      ensures IsCounterBlock(Advance(Inc32(j0), i / 16), j0, i / 16)
      ensures g[i] == XorByte(data[i], c.encipher(key, Advance(Inc32(j0), i / 16))[i % 16])
    {
      AdvancedIsCounterBlock(j0, i / 16);
      KeystreamByte(c, key, Inc32(j0), data, i);
    }
    forall i, cb | 0 <= i < |data| && IsCounterBlock(cb, j0, i / 16)
      ensures cb == Advance(Inc32(j0), i / 16)
    {
      CounterBlockIsUnique(cb, Advance(Inc32(j0), i / 16), j0, i / 16);
    }
    if IsCiphertext(c, key, j0, data, ct) {
      forall i | 0 <= i < |data| ensures ct[i] == g[i] {
        var mask := c.encipher(key, Advance(Inc32(j0), i / 16));
        FlippedIff(ct[i], data[i], mask[i % 16]);
      }
    }
    if ct == g {
      forall i, cb | 0 <= i < |data| && IsCounterBlock(cb, j0, i / 16)
        ensures |c.encipher(key, cb)| == 16 && Flipped(ct[i], data[i], c.encipher(key, cb)[i % 16])
      {
        FlippedIff(ct[i], data[i], c.encipher(key, cb)[i % 16]);
      }
    }
  }

  // ---------- hashes ----------

  lemma FlippedBlockIff(r: bytes, y: bytes, b: bytes)
    requires |y| == |b| == 16
    ensures FlippedBlock(r, y, b) <==> r == Xor(y, b)
  {
    hide Flipped, XorByte;
    if |r| == 16 {
      forall j | 0 <= j < 16 ensures Flipped(r[j], y[j], b[j]) <==> r[j] == XorByte(y[j], b[j]) {
        FlippedIff(r[j], y[j], b[j]);
      }
    }
  }

  lemma MultipliedIff(c: Cipher, h: bytes, y: bytes, b: bytes, next: bytes)
    requires |y| == |b| == 16
    ensures Multiplied(c, h, y, b, next) <==> next == c.multiply(Xor(y, b), h)
  {
    hide FlippedBlock, Xor;
    FlippedBlockIff(Xor(y, b), y, b);
    if flipped :| FlippedBlock(flipped, y, b) && next == c.multiply(flipped, h) {
      FlippedBlockIff(flipped, y, b);
    }
  }

  /** The running hash after k blocks. */
  function HashAfter(c: Cipher, h: bytes, x: bytes, k: nat): (y: bytes)
    requires c.Lawful()
    ensures |y| == 16
  {
    if k == 0 then ZERO_BLOCK else c.multiply(Xor(HashAfter(c, h, x, k - 1), BlockOf(x, k - 1)), h)
  }

  lemma {:induction false} HashesAre(c: Cipher, h: bytes, x: bytes, ys: seq<bytes>, k: nat)
    requires c.Lawful() && AreHashes(c, h, x, ys) && k <= BlockCount(|x|)
    ensures ys[k] == HashAfter(c, h, x, k)
  {
    hide Xor, Multiplied, BlockOf;
    if k > 0 {
      HashesAre(c, h, x, ys, k - 1);
      MultipliedIff(c, h, ys[k - 1], BlockOf(x, k - 1), ys[k]);
      assert Multiplied(c, h, ys[k - 1], BlockOf(x, k - 1), ys[k - 1 + 1]);
    }
  }

  lemma HashesExist(c: Cipher, h: bytes, x: bytes) returns (ys: seq<bytes>)
    requires c.Lawful()
    ensures |ys| == BlockCount(|x|) + 1 && AreHashes(c, h, x, ys)
  {
    hide Xor, Multiplied, BlockOf;
    ys := seq(BlockCount(|x|) + 1, k requires 0 <= k => HashAfter(c, h, x, k));
    forall k | 0 <= k < BlockCount(|x|) ensures Multiplied(c, h, ys[k], BlockOf(x, k), ys[k + 1]) {
      MultipliedIff(c, h, ys[k], BlockOf(x, k), ys[k + 1]);
    }
  }

  /** The fold over the rest of a string goes on from the running hash. */
  lemma {:induction false} FoldIsHash(c: Cipher, h: bytes, x: bytes, k: nat)
    requires c.Lawful() && 16 * k <= |x| + 15 && k <= BlockCount(|x|)
    ensures
      var from := if 16 * k <= |x| then 16 * k else |x|;
      Ghash(c, h, HashAfter(c, h, x, k), x[from..]) == HashAfter(c, h, x, BlockCount(|x|))
    decreases BlockCount(|x|) - k
  {
    hide Xor;
    var from := if 16 * k <= |x| then 16 * k else |x|;
    var rest := x[from..];
    if |rest| == 0 {
      assert k == BlockCount(|x|);
    } else if |rest| <= 16 {
      assert k + 1 == BlockCount(|x|);
      assert rest + Zeros(16 - |rest|) == BlockOf(x, k);
    } else {
      assert rest[..16] + Zeros(0) == BlockOf(x, k);
      assert rest[16..] == x[16 * (k + 1)..];
      FoldIsHash(c, h, x, k + 1);
    }
  }

  lemma LengthBlockHolds(n: nat)
    ensures IsLengthBlock(LengthBlock(n), n)
  {
    hide BigEndianBytes, Int32;
    var v := 8 * n;
    var hi := v / 256 / 256 / 256 / 256;
    WordHolds(v, hi);
    WordHolds(hi, hi / 256 / 256 / 256 / 256);
    EightBytes(v);
    var b := LengthBlock(n);
    assert b[8..12] == BigEndianBytes(hi, 4) && b[12..] == BigEndianBytes(v, 4);
    assert b[..8] == [0, 0, 0, 0, 0, 0, 0, 0];
    Remainder64(v, hi, hi / 256 / 256 / 256 / 256);
  }

  lemma Remainder64(v: nat, hi: nat, top: nat)
    requires v == 0x1_0000_0000 * hi + v % 0x1_0000_0000
    requires hi == 0x1_0000_0000 * top + hi % 0x1_0000_0000
    ensures 0x1_0000_0000 * (hi % 0x1_0000_0000) + v % 0x1_0000_0000 == v % 0x1_0000_0000_0000_0000
  {
    var low := 0x1_0000_0000 * (hi % 0x1_0000_0000) + v % 0x1_0000_0000;
    assert v == 0x1_0000_0000_0000_0000 * top + low && 0 <= low < 0x1_0000_0000_0000_0000;
    Quotient64(v, top, low);
  }

  lemma Quotient64(v: int, hi: int, low: int)
    requires v == 0x1_0000_0000_0000_0000 * hi + low && 0 <= low < 0x1_0000_0000_0000_0000
    ensures v % 0x1_0000_0000_0000_0000 == low
  {
  }

  lemma EightBytes(v: nat)
    ensures BigEndianBytes(v, 8) == BigEndianBytes(v / 256 / 256 / 256 / 256, 4) + BigEndianBytes(v, 4)
  {
    var t1, t2, t3, hi := v / 256, v / 256 / 256, v / 256 / 256 / 256, v / 256 / 256 / 256 / 256;
    assert BigEndianBytes(t3, 5) == BigEndianBytes(hi, 4) + [t3 % 256];
    assert BigEndianBytes(t2, 6) == BigEndianBytes(t3, 5) + [t2 % 256];
    assert BigEndianBytes(t1, 7) == BigEndianBytes(t2, 6) + [t1 % 256];
    assert BigEndianBytes(t3, 1) == [] + [t3 % 256];
    assert BigEndianBytes(t2, 2) == BigEndianBytes(t3, 1) + [t2 % 256];
    assert BigEndianBytes(t1, 3) == BigEndianBytes(t2, 2) + [t1 % 256];
  }

  lemma LengthBlockIsUnique(a: bytes, b: bytes, n: nat)
    requires IsLengthBlock(a, n) && IsLengthBlock(b, n)
    ensures a == b
  {
    hide Int32;
    Int32Bound(a[8..12]);
    Int32Bound(a[12..]);
    Int32Bound(b[8..12]);
    Int32Bound(b[12..]);
    WordIsUnique(a[8..12], b[8..12]);
    WordIsUnique(a[12..], b[12..]);
    assert a == a[..8] + a[8..12] + a[12..] && b == b[..8] + b[8..12] + b[12..];
  }

  lemma Int32Bound(b: bytes)
    requires |b| == 4
    ensures Int32(b) < 0x1_0000_0000
  {
  }

  lemma ZeroBlocks()
    ensures Zeros(16) == ZERO_BLOCK
  {
  }

  lemma ClosedHashIff(c: Cipher, h: bytes, x: bytes, s: bytes)
    requires c.Lawful()
    ensures IsClosedHash(c, h, x, s) <==> s == Absorb(c, h, Ghash(c, h, Zeros(16), x), LengthBlock(|x|))
  {
    hide Xor, Multiplied, IsLengthBlock, LengthBlock, AreHashes, Ghash, HashAfter;
    ZeroBlocks();
    var n := BlockCount(|x|);
    var end, lengths := HashAfter(c, h, x, n), LengthBlock(|x|);
    FirstHash(c, h, x);
    FoldIsHash(c, h, x, 0);
    assert x[0..] == x;
    assert lengths + Zeros(0) == lengths;
    LengthBlockHolds(|x|);
    MultipliedIff(c, h, end, lengths, s);
    if s == Absorb(c, h, Ghash(c, h, Zeros(16), x), lengths) {
      var ys := HashesExist(c, h, x);
      HashesAre(c, h, x, ys, n);
    }
    if ys: seq<bytes>, l: bytes :|
      |ys| == n + 1 && AreHashes(c, h, x, ys) && IsLengthBlock(l, |x|) && Multiplied(c, h, ys[n], l, s)
    {
      HashesAre(c, h, x, ys, n);
      LengthBlockIsUnique(l, lengths, |x|);
    }
  }

  lemma FirstHash(c: Cipher, h: bytes, x: bytes)
    requires c.Lawful()
    ensures HashAfter(c, h, x, 0) == ZERO_BLOCK
  {
  }

  lemma J0Iff(c: Cipher, key: bytes, nonce: bytes, j0: bytes)
    requires c.Lawful()
    ensures IsJ0(c, key, nonce, j0) <==> j0 == J0(c, key, nonce)
  {
    hide IsClosedHash, Absorb, Ghash, LengthBlock;
    ZeroBlocks();
    ClosedHashIff(c, c.encipher(key, ZERO_BLOCK), nonce, j0);
  }

  lemma TagIff(c: Cipher, key: bytes, nonce: bytes, ct: bytes, tag: bytes)
    requires c.Lawful()
    ensures IsTag(c, key, J0(c, key, nonce), ct, tag) <==> tag == Tag(c, key, nonce, ct)
  {
    hide IsClosedHash, Absorb, Ghash, LengthBlock, J0, Xor, FlippedBlock;
    ZeroBlocks();
    var h, j0 := c.encipher(key, ZERO_BLOCK), J0(c, key, nonce);
    var closed := Absorb(c, h, Ghash(c, h, Zeros(16), ct), LengthBlock(|ct|));
    ClosedHashIff(c, h, ct, closed);
    FlippedBlockIff(tag, closed, c.encipher(key, j0));
    if s :| IsClosedHash(c, h, ct, s) && FlippedBlock(tag, s, c.encipher(key, j0)) {
      ClosedHashIff(c, h, ct, s);
    }
  }

  /** Sealing gives exactly what the standard calls the sealed text, for every nonce and every length. */
  lemma SealIsStandard(c: Cipher, key: bytes, nonce: bytes, data: bytes, r: bytes)
    requires c.Lawful()
    ensures IsSealed(c, key, nonce, data, r) <==> r == Seal(c, key, nonce, data)
  {
    hide IsJ0, IsCiphertext, IsTag, Tag, Gctr, J0;
    var j0 := J0(c, key, nonce);
    J0Iff(c, key, nonce, j0);
    if |r| == |data| + 16 {
      var ct, tag := r[..|data|], r[|data|..];
      assert r == ct + tag;
      KeystreamIsCiphertext(c, key, j0, data, ct);
      TagIff(c, key, nonce, ct, tag);
      if j :| IsJ0(c, key, nonce, j) && IsCiphertext(c, key, j, data, ct) && IsTag(c, key, j, ct, tag) {
        J0Iff(c, key, nonce, j);
      }
    }
    SealedLength(c, key, nonce, data);
    if r == Seal(c, key, nonce, data) {
      assert r[..|data|] == Keystreamed(c, key, nonce, data);
    }
  }

  /** Opening gives a text exactly when the input is that text sealed as the standard has it. */
  lemma OpenIsStandard(c: Cipher, key: bytes, nonce: bytes, sealed: bytes, data: bytes)
    requires c.Lawful()
    ensures Open(c, key, nonce, sealed) == Some(data) <==> IsSealed(c, key, nonce, data, sealed)
  {
    hide IsSealed, Open, Seal;
    SealIsStandard(c, key, nonce, data, sealed);
    OpenIffSealed(c, key, nonce, sealed, data);
  }
}
