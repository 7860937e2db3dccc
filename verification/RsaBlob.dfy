/**
 Converting an RSA private key from the CryptoAPI blob, which holds its integers little-endian, to
 the CNG blob, which holds them big-endian.
 */
module RsaBlob {
  import opened Bytes
  import opened Blobs

  const PUBLIC_KEY_STRUC: nat := 8   // size of the CryptoAPI blob header
  const RSA_PUB_KEY: nat := 12       // size of magic, bitlen, pubexp
  const SOURCE_HEADER: nat := PUBLIC_KEY_STRUC + RSA_PUB_KEY
  const BCRYPT_HEADER: nat := 24
  const RSA_PRIVATE_MAGIC: nat := 0x32415352  // "RSA2"
  const EXPONENT_SIZE: nat := 4

  // ---------- the source layout ----------

  function SourceBitLength(blob: bytes): nat
    requires SOURCE_HEADER <= |blob|
  {
    LittleEndian(Slice(blob, PUBLIC_KEY_STRUC + 4, 4))
  }

  /** Header, modulus, and two primes of half its length. */
  predicate WellFormed(blob: bytes) {
    && SOURCE_HEADER <= |blob|
    && var n := SourceBitLength(blob) / 8;
       SOURCE_HEADER + n + n / 2 + n / 2 <= |blob| < 0x4000_0000
  }

  function SourceExponent(blob: bytes): (s: bytes)
    requires WellFormed(blob)
  {
    Slice(blob, PUBLIC_KEY_STRUC + 8, 4)
  }

  function SourceModulus(blob: bytes): (s: bytes)
    requires WellFormed(blob)
  {
    Slice(blob, SOURCE_HEADER, SourceBitLength(blob) / 8)
  }

  function SourcePrime1(blob: bytes): (s: bytes)
    requires WellFormed(blob)
  {
    var n := SourceBitLength(blob) / 8;
    Slice(blob, SOURCE_HEADER + n, n / 2)
  }

  function SourcePrime2(blob: bytes): (s: bytes)
    requires WellFormed(blob)
  {
    var n := SourceBitLength(blob) / 8;
    Slice(blob, SOURCE_HEADER + n + n / 2, n / 2)
  }

  // ---------- the target layout, as its reader takes it apart ----------

  /** What a reader of a CNG private key blob finds in it. */
  datatype Key = Key(magic: nat, bitLength: nat, exponent: nat, modulus: nat, prime1: nat, prime2: nat)

  /**
   Reads a blob by the sizes its own header declares; the fields must fill it exactly.
   */
  function ReadBcryptBlob(blob: bytes): (k: Option<Key>) {
    if |blob| < BCRYPT_HEADER then
      None
    else
      var magic := LittleEndian(Slice(blob, 0, 4));
      var bits := LittleEndian(Slice(blob, 4, 4));
      var e := LittleEndian(Slice(blob, 8, 4));
      var n := LittleEndian(Slice(blob, 12, 4));
      var p := LittleEndian(Slice(blob, 16, 4));
      var q := LittleEndian(Slice(blob, 20, 4));
      if BCRYPT_HEADER + e + n + p + q != |blob| then
        None
      else
        Some(Key(
               magic, bits,
               BigEndian(Slice(blob, BCRYPT_HEADER, e)),
               BigEndian(Slice(blob, BCRYPT_HEADER + e, n)),
               BigEndian(Slice(blob, BCRYPT_HEADER + e + n, p)),
               BigEndian(Slice(blob, BCRYPT_HEADER + e + n + p, q))))
  }

  /** The key a CryptoAPI blob holds. */
  function SourceKey(blob: bytes): Key
    requires WellFormed(blob)
  {
    Key(
      RSA_PRIVATE_MAGIC, SourceBitLength(blob),
      LittleEndian(SourceExponent(blob)), LittleEndian(SourceModulus(blob)),
      LittleEndian(SourcePrime1(blob)), LittleEndian(SourcePrime2(blob)))
  }

  function Header(bits: nat, n: nat, half: nat): (h: bytes)
    ensures |h| == BCRYPT_HEADER
  {
    Dword(RSA_PRIVATE_MAGIC) + Dword(bits) + Dword(EXPONENT_SIZE) + Dword(n) + Dword(half) + Dword(half)
  }

  function Converted(blob: bytes): (c: bytes)
    requires WellFormed(blob)
  {
    var n := SourceBitLength(blob) / 8;
    Header(SourceBitLength(blob), n, n / 2)
    + Reverse(SourceExponent(blob)) + Reverse(SourceModulus(blob))
    + Reverse(SourcePrime1(blob)) + Reverse(SourcePrime2(blob))
  }

  lemma ReadHeader(bits: nat, n: nat, half: nat, rest: bytes)
    requires bits < 0x1_0000_0000 && n < 0x1_0000_0000 && half < 0x1_0000_0000
    ensures
      var b := Header(bits, n, half) + rest;
      && LittleEndian(Slice(b, 0, 4)) == RSA_PRIVATE_MAGIC
      && LittleEndian(Slice(b, 4, 4)) == bits
      && LittleEndian(Slice(b, 8, 4)) == EXPONENT_SIZE
      && LittleEndian(Slice(b, 12, 4)) == n
      && LittleEndian(Slice(b, 16, 4)) == half
      && LittleEndian(Slice(b, 20, 4)) == half
  {
    hide LittleEndian, LowBytes, Pow256;
    DwordRange();
    LowBytesHold(RSA_PRIVATE_MAGIC, 4);
    LowBytesHold(bits, 4);
    LowBytesHold(EXPONENT_SIZE, 4);
    LowBytesHold(n, 4);
    LowBytesHold(half, 4);
    var b := Header(bits, n, half) + rest;
    assert Slice(b, 0, 4) == Dword(RSA_PRIVATE_MAGIC);
    assert Slice(b, 4, 4) == Dword(bits);
    assert Slice(b, 8, 4) == Dword(EXPONENT_SIZE);
    assert Slice(b, 12, 4) == Dword(n);
    assert Slice(b, 16, 4) == Dword(half);
    assert Slice(b, 20, 4) == Dword(half);
  }

  lemma FourFields(h: bytes, a: bytes, b: bytes, c: bytes, d: bytes)
    ensures
      var s := h + a + b + c + d;
      && s == h + (a + b + c + d)
      && Slice(s, |h|, |a|) == a
      && Slice(s, |h| + |a|, |b|) == b
      && Slice(s, |h| + |a| + |b|, |c|) == c
      && Slice(s, |h| + |a| + |b| + |c|, |d|) == d
  {
  }

  /**
   Reading the converted blob by its own declared sizes finds exactly the integers of the source:
   nothing is lost at the seams, for odd key sizes too.
   */
  lemma ConversionKeepsKey(blob: bytes)
    requires WellFormed(blob)
    ensures ReadBcryptBlob(Converted(blob)) == Some(SourceKey(blob))
  {
    hide LittleEndian, BigEndian, Reverse, Header, Slice, Pow256, LowBytes;
    var bits := SourceBitLength(blob);
    var n := bits / 8;
    LowBytesOfInteger(Slice(blob, PUBLIC_KEY_STRUC + 4, 4));
    DwordRange();
    var e, m, p, q := SourceExponent(blob), SourceModulus(blob), SourcePrime1(blob), SourcePrime2(blob);
    var h, re, rm, rp, rq := Header(bits, n, n / 2), Reverse(e), Reverse(m), Reverse(p), Reverse(q);
    var c := Converted(blob);
    FourFields(h, re, rm, rp, rq);
    ReadHeader(bits, n, n / 2, re + rm + rp + rq);
    ReversedEndian(e);
    ReversedEndian(m);
    ReversedEndian(p);
    ReversedEndian(q);
  }

  // ---------- the conversion in place ----------

  lemma ReverseOneMore(src: bytes, i: nat)
    requires i < |src|
    ensures Reverse(src[..i + 1]) == [src[i]] + Reverse(src[..i])
  {
  }

  /** Writes a field back to front. */
  method ReverseInto(dst: array<byte>, at: nat, src: bytes)
    requires at + |src| <= dst.Length
    modifies dst
    ensures dst[..] == Overwritten(old(dst[..]), at, Reverse(src))
  {
    hide Overwritten, Reverse;
    ghost var was := dst[..];
    var n := |src|;
    NothingWritten(was, at + n);
    assert src[..0] == [];
    for i := 0 to n
      invariant dst[..] == Overwritten(was, at + n - i, Reverse(src[..i]))
    {
      PutBefore(was, at + n - 1 - i, src[i], Reverse(src[..i]));
      ReverseOneMore(src, i);
      dst[at + n - 1 - i] := src[i];
    }
    assert src[..n] == src;
  }

  /** Writes the four bytes of a number, most significant first, by shifting it. */
  method WriteExponent(dst: array<byte>, at: nat, pubExp: nat)
    requires at + EXPONENT_SIZE <= dst.Length
    modifies dst
    ensures dst[..] == Overwritten(old(dst[..]), at, Reverse(Dword(pubExp)))
  {
    hide Overwritten, Reverse;
    ghost var was := dst[..];
    var shifted: nat := pubExp;
    ghost var d := Dword(pubExp);
    NothingWritten(was, at + 4);
    assert d[..0] == [];
    for i := 0 to EXPONENT_SIZE
      invariant dst[..] == Overwritten(was, at + 4 - i, Reverse(d[..i]))
      invariant d[i..] == LowBytes(shifted, 4 - i)
    {
      assert d[i..][0] == d[i] && d[i..][1..] == d[i + 1..];
      PutBefore(was, at + 3 - i, d[i], Reverse(d[..i]));
      ReverseOneMore(d, i);
      dst[at + 3 - i] := shifted % 256;
      shifted := shifted / 256;
    }
    assert d[..4] == d;
  }

  method WriteHeader(dst: array<byte>, bitLen: nat, byteLen: nat)
    requires BCRYPT_HEADER <= dst.Length && dst[..] == Zeros(dst.Length)
    modifies dst
    ensures dst[..] == Header(bitLen, byteLen, byteLen / 2) + Zeros(dst.Length - BCRYPT_HEADER)
  {
    hide Dword;
    assert Zeros(dst.Length) == [] + Zeros(dst.Length);
    AppendDword(dst, 0, RSA_PRIVATE_MAGIC, []);
    ghost var done := Dword(RSA_PRIVATE_MAGIC);
    assert [] + done == done;
    AppendDword(dst, 4, bitLen, done);
    done := done + Dword(bitLen);
    AppendDword(dst, 8, EXPONENT_SIZE, done);
    done := done + Dword(EXPONENT_SIZE);
    AppendDword(dst, 12, byteLen, done);
    done := done + Dword(byteLen);
    AppendDword(dst, 16, byteLen / 2, done);
    done := done + Dword(byteLen / 2);
    AppendDword(dst, 20, byteLen / 2, done);
  }

  /** Writes the next field back to front behind those already there. */
  method AppendReversed(dst: array<byte>, at: nat, src: bytes, ghost done: bytes)
    requires |done| == at && at + |src| <= dst.Length && dst[..] == done + Zeros(dst.Length - at)
    modifies dst
    ensures dst[..] == (done + Reverse(src)) + Zeros(dst.Length - at - |src|)
  {
    hide Overwritten, Reverse;
    ReverseInto(dst, at, src);
    WriteNext(done, dst.Length - at, Reverse(src));
  }

  /** Writes the exponent, the modulus and the primes behind the header; they fill the blob. */
  method WriteFields(dst: array<byte>, pubExp: nat, modulus: bytes, prime1: bytes, prime2: bytes, ghost header: bytes)
    requires |header| == BCRYPT_HEADER
    requires dst.Length == BCRYPT_HEADER + EXPONENT_SIZE + |modulus| + |prime1| + |prime2|
    requires dst[..] == header + Zeros(dst.Length - BCRYPT_HEADER)
    modifies dst
    ensures dst[..] == header + Reverse(Dword(pubExp)) + Reverse(modulus) + Reverse(prime1) + Reverse(prime2)
  {
    hide Overwritten, Reverse, Dword;
    var at := BCRYPT_HEADER;
    WriteExponent(dst, at, pubExp);
    WriteNext(header, dst.Length - at, Reverse(Dword(pubExp)));
    ghost var done := header + Reverse(Dword(pubExp));
    at := at + EXPONENT_SIZE;

    AppendReversed(dst, at, modulus, done);
    done, at := done + Reverse(modulus), at + |modulus|;

    AppendReversed(dst, at, prime1, done);
    done, at := done + Reverse(prime1), at + |prime1|;

    AppendReversed(dst, at, prime2, done);
    done := done + Reverse(prime2);
    assert done + Zeros(0) == done;
  }

  method ConvertToBcryptKey(keyBlob: bytes) returns (bcryptBlob: array<byte>)
    requires WellFormed(keyBlob)
    ensures fresh(bcryptBlob)
    ensures bcryptBlob[..] == Converted(keyBlob)
    ensures ReadBcryptBlob(bcryptBlob[..]) == Some(SourceKey(keyBlob))
  {
    hide Overwritten, Reverse, LittleEndian, Dword, Header, ReadBcryptBlob, SourceKey, Slice;
    var bitLen := LittleEndian(Slice(keyBlob, PUBLIC_KEY_STRUC + 4, 4));
    var pubExp := LittleEndian(Slice(keyBlob, PUBLIC_KEY_STRUC + 8, 4));
    var n := bitLen / 8;
    var modulus := Slice(keyBlob, SOURCE_HEADER, n);
    var prime1 := Slice(keyBlob, SOURCE_HEADER + n, n / 2);
    var prime2 := Slice(keyBlob, SOURCE_HEADER + n + n / 2, n / 2);
    bcryptBlob := new byte[BCRYPT_HEADER + EXPONENT_SIZE + n + n / 2 + n / 2](_ => 0);
    WriteHeader(bcryptBlob, bitLen, n);
    WriteFields(bcryptBlob, pubExp, modulus, prime1, prime2, Header(bitLen, n, n / 2));
    ExponentIsSource(keyBlob);
    ConversionKeepsKey(keyBlob);
  }

  lemma ExponentIsSource(blob: bytes)
    requires WellFormed(blob)
    ensures Dword(LittleEndian(Slice(blob, PUBLIC_KEY_STRUC + 8, 4))) == SourceExponent(blob)
  {
    LowBytesOfInteger(SourceExponent(blob));
  }
}
