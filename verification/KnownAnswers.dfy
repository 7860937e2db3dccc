/** The tables and formats in literal form: alphabets, test vectors, layouts, names and numbers. */
module KnownAnswers {
  import opened Bytes
  import opened Bits
  import B = Base64
  import L = Base64Laws
  import X = Hex
  import U = Uuid
  import opened Blobs
  import R = RsaBlob
  import E = EccBlob

  // ---------- base64: section 4 of RFC 4648 ----------

  const CAPITALS := "ABCDEFGHIJKLMNOPQRSTUVWXYZ"
  const SMALL := "abcdefghijklmnopqrstuvwxyz"
  const DIGITS := "0123456789"

  lemma CapitalsAre(d: nat)
    requires d < 26
    ensures |CAPITALS| == 26 && CAPITALS[d] as int == d + 'A' as int
  {
  }

  lemma SmallAre(d: nat)
    requires d < 26
    ensures |SMALL| == 26 && SMALL[d] as int == d + 'a' as int
  {
  }

  lemma DigitsAre(d: nat)
    requires d < 10
    ensures |DIGITS| == 10 && DIGITS[d] as int == d + '0' as int
  {
  }

  /** The sixty-four symbols in order. */
  lemma AlphabetIs(d: nat)
    requires d < 64
    ensures |CAPITALS + SMALL + DIGITS + "+/"| == 64
    ensures B.Symbol(d) == (CAPITALS + SMALL + DIGITS + "+/")[d] as int
  {
    CapitalsAre(if d < 26 then d else 0);
    SmallAre(if 26 <= d < 52 then d - 26 else 0);
    DigitsAre(if 52 <= d < 62 then d - 52 else 0);
    hide CAPITALS, SMALL, DIGITS;
  }

  /** The padding character is '='; it and the sixty-four symbols are all that decodes. */
  lemma OnlyAlphabetDecodes(c: byte)
    ensures B.PAD == 61
    ensures B.Sextet(c) >= 0 <==> c == 61 || exists d: nat :: d < 64 && B.Symbol(d) == c
    ensures c == 61 ==> B.Sextet(c) == 0
  {
    if B.Sextet(c) >= 0 && c != 61 {
      assert B.Symbol(B.Sextet(c)) == c;
    }
  }

  /** Three bytes make four symbols of six bits each; one or two that are left are filled up with zero bits. */
  lemma Groups(a: byte, b: byte, c: byte, rest: bytes)
    ensures B.Encode([]) == []
    ensures B.Encode([a]) == [B.Symbol(a / 4), B.Symbol(a % 4 * 16), 61, 61]
    ensures B.Encode([a, b]) == [B.Symbol(a / 4), B.Symbol(a % 4 * 16 + b / 16), B.Symbol(b % 16 * 4), 61]
    ensures B.Encode([a, b, c] + rest)
         == [B.Symbol(a / 4), B.Symbol(a % 4 * 16 + b / 16), B.Symbol(b % 16 * 4 + c / 64), B.Symbol(c % 64)]
            + B.Encode(rest)
  {
    hide B.Encode, B.Symbol, B.IsSymbol;
    L.EncodeIsRfc4648([]);
    L.EncodeIsRfc4648([a]);
    L.EncodeIsRfc4648([a, b]);
    L.EncodeThree([a, b, c] + rest);
    assert ([a, b, c] + rest)[3..] == rest;
    SymbolsOf2(L.Group3(a, 0, 0));
    SymbolsOf2(L.Group3(a, b, 0));
    SymbolsOf2(L.Group3(a, b, c));
  }

  lemma SymbolsOf2(g: seq<int>)
    requires |g| == 4 && forall i :: 0 <= i < 4 ==> 0 <= g[i] < 64
    ensures B.Symbols(g[..2]) == [B.Symbol(g[0]), B.Symbol(g[1])]
    ensures B.Symbols(g[..3]) == [B.Symbol(g[0]), B.Symbol(g[1]), B.Symbol(g[2])]
    ensures B.Symbols(g) == [B.Symbol(g[0]), B.Symbol(g[1]), B.Symbol(g[2]), B.Symbol(g[3])]
  {
    hide B.Symbol, B.IsSymbol;
  }

  /** The test vectors of section 10 of RFC 4648: "", "f", "fo" and "foo". */
  lemma ShortVectors()
    ensures B.Encode([]) == []
    ensures B.Encode([102]) == [90, 103, 61, 61]  // "Zg=="
    ensures B.Encode([102, 111]) == [90, 109, 56, 61]  // "Zm8="
    ensures B.Encode([102, 111, 111]) == [90, 109, 57, 118]  // "Zm9v"
  {
    hide B.Encode;
    Groups(102, 111, 111, []);
    assert [102, 111, 111] + [] == [102, 111, 111];
    VectorSymbols();
  }

  lemma VectorSymbols()
    ensures B.Symbol(25) == 90 && B.Symbol(32) == 103 && B.Symbol(38) == 109
    ensures B.Symbol(60) == 56 && B.Symbol(61) == 57 && B.Symbol(47) == 118
    ensures B.Symbol(24) == 89 && B.Symbol(4) == 69 && B.Symbol(5) == 70 && B.Symbol(50) == 121
  {
  }

  /** And "foob", "fooba" and "foobar". */
  lemma LongVectors()
    ensures B.Encode([102, 111, 111, 98]) == [90, 109, 57, 118, 89, 103, 61, 61]  // "Zm9vYg=="
    ensures B.Encode([102, 111, 111, 98, 97]) == [90, 109, 57, 118, 89, 109, 69, 61]  // "Zm9vYmE="
    ensures B.Encode([102, 111, 111, 98, 97, 114]) == [90, 109, 57, 118, 89, 109, 70, 121]  // "Zm9vYmFy"
  {
    hide B.Encode, B.Symbol;
    VectorSymbols();
    Groups(102, 111, 111, [98]);
    Groups(102, 111, 111, [98, 97]);
    Groups(102, 111, 111, [98, 97, 114]);
    Groups(98, 97, 114, []);
    assert [98, 97, 114] + [] == [98, 97, 114];
    assert [102, 111, 111] + [98] == [102, 111, 111, 98];
    assert [102, 111, 111] + [98, 97] == [102, 111, 111, 98, 97];
    assert [102, 111, 111] + [98, 97, 114] == [102, 111, 111, 98, 97, 114];
  }

  /** The two characters section 5 of RFC 4648 replaces: "++//" is "--__". */
  lemma UrlVector()
    ensures B.Encode([251, 239, 255]) == [43, 43, 47, 47]
    ensures B.ToUrl([43, 43, 47, 47]) == [45, 45, 95, 95] && B.FromUrl([45, 45, 95, 95]) == [43, 43, 47, 47]
  {
    hide B.Encode, B.Symbol;
    assert B.Symbol(62) == 43 && B.Symbol(63) == 47 by {
      PlusAndSlash();
    }
    Groups(251, 239, 255, []);
    assert [251, 239, 255] + [] == [251, 239, 255];
  }

  lemma PlusAndSlash()
    ensures B.Symbol(62) == 43 && B.Symbol(63) == 47
  {
  }

  /** No other character is touched. */
  lemma UrlReplaces(s: bytes, i: nat)
    requires i < |s|
    ensures B.ToUrl(s)[i] == if s[i] == 43 then 45 else if s[i] == 47 then 95 else s[i]
    ensures B.FromUrl(s)[i] == if s[i] == 45 then 43 else if s[i] == 95 then 47 else s[i]
  {
  }

  /** The decoder that counts padding counts every '=' wherever it stands. */
  lemma {:induction false} PaddingIsCounted(s: bytes)
    ensures B.CountPad(s) == multiset(s)[61]
  {
    if s != [] {
      PaddingIsCounted(s[..|s| - 1]);
      assert s == s[..|s| - 1] + [s[|s| - 1]];
    }
  }

  /**
   On every text: the length is not 1 modulo 4, every character decodes, and there are no more '='
   than whole bytes; then so many bytes fewer come out.
   */
  lemma DecodesIff(s: bytes)
    ensures
      B.Decode(s).Ok? <==>
        && |s| % 4 != 1
        && (forall i :: 0 <= i < |s| ==> s[i] == 61 || exists d: nat :: d < 64 && B.Symbol(d) == s[i])
        && multiset(s)[61] <= 6 * |s| / 8
    ensures B.Decode(s).Ok? ==> |B.Decode(s).value| == 6 * |s| / 8 - multiset(s)[61]
    ensures
      B.Decode(s) == Err(B.InvalidCharacter) <==>
      || |s| % 4 == 1
      || exists i :: 0 <= i < |s| && s[i] != 61 && forall d: nat :: d < 64 ==> B.Symbol(d) != s[i]
  {
    hide B.Symbol, B.Sextet, B.BytesOf;
    PaddingIsCounted(s);
    RawLength(s);
    forall i | 0 <= i < |s|
      ensures B.Sextet(s[i]) >= 0 <==> s[i] == 61 || exists d: nat :: d < 64 && B.Symbol(d) == s[i]
    {
      OnlyAlphabetDecodes(s[i]);
    }
  }

  lemma RawLength(s: bytes)
    ensures |B.BytesOf(B.Sextets(s))| == 6 * |s| / 8
  {
    hide Regroup, Spread;
    SpreadLength(B.Sextets(s), 6);
    RegroupLength(Spread(B.Sextets(s), 6), 8);
  }

  /** What comes out are the bits of the symbols: their values, six bits each, cut into bytes. */
  lemma DecodedBits(s: bytes, v: bytes)
    requires B.DecodeRaw(s) == Ok(v)
    ensures Spread(v, 8) <= Spread(B.Sextets(s), 6)
    ensures forall i, d: nat :: 0 <= i < |s| && d < 64 && B.Symbol(d) == s[i] ==> B.Sextets(s)[i] == d
  {
    hide B.Symbol, B.Sextet, Regroup, Spread;
    var bits := Spread(B.Sextets(s), 6);
    RawLength(s);
    SpreadLength(B.Sextets(s), 6);
    FrontRegroups(bits, 8);
    forall i, d: nat | 0 <= i < |s| && d < 64 && B.Symbol(d) == s[i] ensures B.Sextets(s)[i] == d {
      B.SymbolRoundTrip(d);
    }
  }

  lemma {:induction false} FrontRegroups(b: seq<bool>, w: nat)
    requires w > 0
    ensures Spread(Regroup(b, w), w) <= b
    decreases |b|
  {
    if |b| >= w {
      FrontRegroups(b[w..], w);
      BitsOfValue(b[..w]);
      var d := Regroup(b, w);
      assert d[1..] == Regroup(b[w..], w);
      assert b == b[..w] + b[w..];
    }
  }

  // ---------- integers and hexadecimal ----------

  lemma Endianness()
    ensures BigEndian([1, 2, 3]) == 0x010203 && LittleEndian([1, 2, 3]) == 0x030201
    ensures Dword(0x04030201) == [1, 2, 3, 4]
  {
    assert [1, 2, 3][..2][..1][..0] == [];
    assert [1, 2, 3][..2] == [1, 2] && [1, 2][..1] == [1];
    assert BigEndian([1]) == 1 && BigEndian([1, 2]) == 0x0102;
    assert [1, 2, 3][1..] == [2, 3] && [2, 3][1..] == [3] && [3][1..] == [];
    assert LittleEndian([3]) == 3 && LittleEndian([2, 3]) == 0x0302;
    assert LowBytes(0x04030201, 4) == [1] + LowBytes(0x040302, 3);
    assert LowBytes(0x040302, 3) == [2] + LowBytes(0x0403, 2);
    assert LowBytes(0x0403, 2) == [3] + LowBytes(4, 1);
  }

  /** "0af9" is the text of two bytes. */
  lemma HexVector()
    ensures X.ToHex([0x0a, 0xf9]) == [48, 97, 102, 57]
  {
    hide X.ToHex;
    X.HexOfMore(0x0a, [0xf9]);
    X.HexOfMore(0xf9, []);
    X.NoHex();
    assert [0x0a] + [0xf9] == [0x0a, 0xf9] && [0xf9] + [] == [0xf9];
  }

  /** And those bytes come from "0AF9", too. */
  lemma UpperHexVector()
    ensures X.FromHex([48, 65, 70, 57]) == [0x0a, 0xf9]
  {
    hide X.FromHex, X.Strtol;
    X.TwoDigits(48, 65);
    X.TwoDigits(70, 57);
    X.FromTwo(48, 65, [70, 57]);
    X.FromTwo(70, 57, []);
    assert [48, 65] + [70, 57] == [48, 65, 70, 57] && [70, 57] + [] == [70, 57];
    X.NothingToRead([]);
  }

  /** What strtol makes of text that is no digit pair: "-1", " 5", "+5", "5z", "zz", and a digit alone. */
  lemma StrtolVector()
    ensures X.Strtol([45, 49]) == -1 && X.Strtol([32, 53]) == 5 && X.Strtol([43, 53]) == 5
    ensures X.Strtol([53, 122]) == 5 && X.Strtol([122, 122]) == 0 && X.Strtol([97]) == 10
  {
    assert [45, 49][1..] == [49] && [32, 53][1..] == [53] && [43, 53][1..] == [53] && [53, 122][1..] == [122];
    assert [49][1..] == [] && [53][1..] == [] && [97][1..] == [];
    assert X.Digits([49], 0) == 1 && X.Digits([53], 0) == 5;
    assert X.Digits([53, 122], 0) == X.Digits([122], 5) == 5;
  }

  // ---------- the UUID text ----------

  /**
   The bytes of a UUID in the order their digits are printed: the first three fields back to front.
   */
  lemma UuidLayout(u: bytes)
    requires |u| == 16
    ensures
      U.Text(u) ==
      Pair(u[3]) + Pair(u[2]) + Pair(u[1]) + Pair(u[0]) + [45] + Pair(u[5]) + Pair(u[4]) + [45]
      + Pair(u[7]) + Pair(u[6]) + [45] + Pair(u[8]) + Pair(u[9]) + [45]
      + (Pair(u[10]) + Pair(u[11]) + Pair(u[12]) + Pair(u[13]) + Pair(u[14]) + Pair(u[15]))
  {
    hide X.ToHex, Reverse, Pair;
    Reversals(u[0], u[1], u[2], u[3]);
    Reversals(u[4], u[5], u[6], u[7]);
    assert u[..4] == [u[0], u[1], u[2], u[3]] && u[4..6] == [u[4], u[5]] && u[6..8] == [u[6], u[7]];
    assert u[8..10] == [u[8], u[9]] && u[10..] == [u[10], u[11], u[12], u[13], u[14], u[15]];
    SmallHex(u[3], u[2], u[1], u[0]);
    SmallHex(u[5], u[4], u[7], u[6]);
    SmallHex(u[8], u[9], 0, 0);
    SixHex(u[10], u[11], u[12], u[13], u[14], u[15]);
    Rearranged(Pair(u[3]) + Pair(u[2]) + Pair(u[1]) + Pair(u[0]), Pair(u[5]), Pair(u[4]), Pair(u[7]), Pair(u[6]),
               Pair(u[8]), Pair(u[9]));
  }

  lemma Rearranged(a: bytes, b: bytes, c: bytes, d: bytes, e: bytes, f: bytes, g: bytes)
    ensures a + [45] + (b + c) + [45] + (d + e) + [45] + (f + g) + [45]
         == a + [45] + b + c + [45] + d + e + [45] + f + g + [45]
  {
  }

  lemma Reversals(a: byte, b: byte, c: byte, d: byte)
    ensures Reverse([a, b, c, d]) == [d, c, b, a] && Reverse([a, b]) == [b, a] && Reverse([c, d]) == [d, c]
  {
  }

  /** The sixteen digits. */
  lemma DigitsOfPair(d: nat)
    requires d < 16
    ensures X.HexDigit(d) == "0123456789abcdef"[d] as int
  {
  }

  function Pair(b: byte): bytes {
    [X.HexDigit(b / 16), X.HexDigit(b % 16)]
  }

  lemma SmallHex(a: byte, b: byte, c: byte, d: byte)
    ensures X.ToHex([a, b, c, d]) == Pair(a) + Pair(b) + Pair(c) + Pair(d)
    ensures X.ToHex([a, b]) == Pair(a) + Pair(b) && X.ToHex([c, d]) == Pair(c) + Pair(d)
  {
    hide X.ToHex, X.HexDigit;
    X.NoHex();
    X.HexOfMore(a, [b, c, d]);
    X.HexOfMore(b, [c, d]);
    X.HexOfMore(c, [d]);
    X.HexOfMore(d, []);
    X.HexOfMore(a, [b]);
    X.HexOfMore(b, []);
    assert [a] + [b, c, d] == [a, b, c, d] && [b] + [c, d] == [b, c, d] && [c] + [d] == [c, d] && [d] + [] == [d];
    assert [a] + [b] == [a, b] && [b] + [] == [b];
  }

  lemma SixHex(a: byte, b: byte, c: byte, d: byte, e: byte, f: byte)
    ensures X.ToHex([a, b, c, d, e, f]) == Pair(a) + Pair(b) + Pair(c) + Pair(d) + Pair(e) + Pair(f)
  {
    hide X.ToHex, X.HexDigit;
    SmallHex(c, d, e, f);
    X.HexOfMore(a, [b, c, d, e, f]);
    X.HexOfMore(b, [c, d, e, f]);
    assert [a] + [b, c, d, e, f] == [a, b, c, d, e, f] && [b] + [c, d, e, f] == [b, c, d, e, f];
  }

  // ---------- key blobs ----------

  /**
   A CryptoAPI private key blob put together from its parts, one behind the other: eight bytes of
   header, the magic, the length in bits, the exponent, the modulus and the primes.
   */
  function SourceBlob(header: bytes, magic: bytes, bits: nat, e: bytes, m: bytes, p: bytes, q: bytes): bytes {
    header + magic + Dword(bits) + e + m + p + q
  }

  /** Converted, it is read as exactly those integers, taken little-endian. */
  lemma RsaKeyIsKept(header: bytes, magic: bytes, bits: nat, e: bytes, m: bytes, p: bytes, q: bytes)
    requires |header| == 8 && |magic| == 4 && |e| == 4 && bits < 0x1_0000_0000
    requires |m| == bits / 8 && |p| == |q| == |m| / 2 && |m| < 0x1000_0000
    ensures
      var blob := SourceBlob(header, magic, bits, e, m, p, q);
      && R.WellFormed(blob)
      && R.Converted(blob) ==
         Dword(0x3241_5352) + Dword(bits) + Dword(4) + Dword(|m|) + Dword(|p|) + Dword(|q|)
         + Reverse(e) + Reverse(m) + Reverse(p) + Reverse(q)
      && R.ReadBcryptBlob(R.Converted(blob)) ==
         Some(R.Key(0x3241_5352, bits, LittleEndian(e), LittleEndian(m), LittleEndian(p), LittleEndian(q)))
  {
    hide LittleEndian, Dword, R.ReadBcryptBlob, R.Converted, R.WellFormed, Slice;
    var blob := SourceBlob(header, magic, bits, e, m, p, q);
    SourceFields(header, magic, Dword(bits), e, m, p, q);
    FieldsGiveKey(blob, bits, e, m, p, q);
    R.ConversionKeepsKey(blob);
  }

  lemma FieldsGiveKey(blob: bytes, bits: nat, e: bytes, m: bytes, p: bytes, q: bytes)
    requires |e| == 4 && bits < 0x1_0000_0000 && |m| < 0x1000_0000
    requires |m| == bits / 8 && |p| == |q| == |m| / 2 && |blob| == 20 + |m| + |p| + |q|
    requires Slice(blob, 12, 4) == Dword(bits) && Slice(blob, 16, 4) == e && Slice(blob, 20, |m|) == m
    requires Slice(blob, 20 + |m|, |p|) == p && Slice(blob, 20 + |m| + |p|, |q|) == q
    ensures R.WellFormed(blob)
    ensures R.SourceKey(blob) ==
            R.Key(0x3241_5352, bits, LittleEndian(e), LittleEndian(m), LittleEndian(p), LittleEndian(q))
    ensures R.Converted(blob) ==
            Dword(0x3241_5352) + Dword(bits) + Dword(4) + Dword(|m|) + Dword(|p|) + Dword(|q|)
            + Reverse(e) + Reverse(m) + Reverse(p) + Reverse(q)
  {
    hide LittleEndian, Slice, Reverse, Dword, R.SourceBitLength, R.WellFormed;
    hide R.SourceExponent, R.SourceModulus, R.SourcePrime1, R.SourcePrime2;
    BitsAreRead(blob, bits);
    PartsAreRead(blob, bits, e, m, p, q);
  }

  lemma BitsAreRead(blob: bytes, bits: nat)
    requires |blob| >= 20 && bits < 0x1_0000_0000 && Slice(blob, 12, 4) == Dword(bits)
    ensures R.SourceBitLength(blob) == bits
  {
    hide LittleEndian, LowBytes, Pow256, Slice;
    DwordRange();
    LowBytesHold(bits, 4);
  }

  lemma PartsAreRead(blob: bytes, bits: nat, e: bytes, m: bytes, p: bytes, q: bytes)
    requires |blob| == 20 + |m| + |p| + |q| && R.SourceBitLength(blob) == bits
    requires |e| == 4 && |m| == bits / 8 && |p| == |q| == |m| / 2 && |m| < 0x1000_0000
    requires Slice(blob, 16, 4) == e && Slice(blob, 20, |m|) == m
    requires Slice(blob, 20 + |m|, |p|) == p && Slice(blob, 20 + |m| + |p|, |q|) == q
    ensures R.WellFormed(blob)
    ensures R.SourceExponent(blob) == e && R.SourceModulus(blob) == m
    ensures R.SourcePrime1(blob) == p && R.SourcePrime2(blob) == q
  {
    hide R.SourceBitLength, Slice;
  }

  lemma SourceFields(header: bytes, magic: bytes, bits: bytes, e: bytes, m: bytes, p: bytes, q: bytes)
    requires |header| == 8 && |magic| == 4 && |e| == 4 && |bits| == 4
    ensures
      var blob := header + magic + bits + e + m + p + q;
      && Slice(blob, 12, 4) == bits
      && Slice(blob, 16, 4) == e
      && Slice(blob, 20, |m|) == m
      && Slice(blob, 20 + |m|, |p|) == p
      && Slice(blob, 20 + |m| + |p|, |q|) == q
  {
  }

  /** "ECK2" and "ECK1", as the bytes of the magic numbers spell them. */
  lemma MagicWords()
    ensures Dword(E.PRIVATE_MAGIC) == [69, 67, 75, 50]
    ensures Dword(E.PUBLIC_MAGIC) == [69, 67, 75, 49]
    ensures Dword(R.RSA_PRIVATE_MAGIC) == [82, 83, 65, 50]
  {
    FourDigits(82, 83, 65, 50);
    FourDigits(69, 67, 75, 50);
    FourDigits(69, 67, 75, 49);
  }

  lemma FourDigits(a: byte, b: byte, c: byte, d: byte)
    ensures Dword(a + 256 * (b + 256 * (c + 256 * (d as int)))) == [a, b, c, d]
  {
    var z := d as int;
    var y := c + 256 * z;
    var x := b + 256 * y;
    var w := a + 256 * x;
    assert w % 256 == a && w / 256 == x && x % 256 == b && x / 256 == y && y % 256 == c && y / 256 == z;
    assert LowBytes(w, 4) == [a] + LowBytes(x, 3) && LowBytes(x, 3) == [b] + LowBytes(y, 2);
    assert LowBytes(y, 2) == [c] + LowBytes(z, 1);
  }

  /**
   A private key whose public bit string is a form byte, X and Y: the blob, field by field, each
   coordinate with zeros before it up to the width of the scalar; and what is exported from it.
   */
  lemma PrivateLayout(form: byte, x: bytes, y: bytes, d: bytes)
    requires |x| == |y| <= |d| && (form == 4 || form == 6 || form == 7)
    ensures
      var r := E.Imported(E.PrivateInfo([form] + x + y, d));
      && r.Ok?
      && E.Blob(r.value) ==
         [69, 67, 75, 50] + Dword(|d|) + (Zeros(|d| - |x|) + x) + (Zeros(|d| - |y|) + y) + d
      && E.ExportedPrivate(r.value) == E.PrivateInfo([4] + (Zeros(|d| - |x|) + x) + (Zeros(|d| - |y|) + y), d)
  {
    hide Dword, BigEndian, E.X, E.Y;
    MagicWords();
    Coordinates(form, x, y);
  }

  lemma Coordinates(form: byte, x: bytes, y: bytes)
    requires |x| == |y|
    ensures E.X([form] + x + y) == x && E.Y([form] + x + y) == y && E.CoordinateSize([form] + x + y) == |x|
  {
  }

  /** The same for a public key, whose form byte may be any. */
  lemma PublicLayout(form: byte, x: bytes, y: bytes)
    requires |x| == |y|
    ensures E.Blob(E.ImportedPublic([form] + x + y)) == [69, 67, 75, 49] + Dword(|x|) + x + y + []
    ensures E.ExportedPublic(E.ImportedPublic([form] + x + y)) == [4] + x + y
  {
    hide Dword, E.X, E.Y;
    MagicWords();
    Coordinates(form, x, y);
  }

  /** Without a public key the slots are zero; a form byte other than 4, 6 and 7 is an error. */
  lemma KeyForms(form: byte, d: bytes)
    ensures E.Imported(E.PrivateInfo([], d)) == Ok(E.Slots(0x324B_4345, Zeros(|d|), Zeros(|d|), d))
    ensures E.Imported(E.PrivateInfo([form], d)) == Err(E.PublicKeyError) <==> form != 4 && form != 6 && form != 7
  {
    hide BigEndian;
    assert Zeros(|d|) + [] == Zeros(|d|);
  }
}
