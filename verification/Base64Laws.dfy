/** What the codecs are for: decoding inverts encoding, and the stream is the RFC's grouping. */
module Base64Laws {
  import opened Bytes
  import opened Bits
  import opened TransformWidth
  import opened Base64

  // ---------- the group form of section 4 of RFC 4648 ----------

  function Group3(a: byte, b: byte, c: byte): (s: seq<int>)
    ensures |s| == 4 && forall i :: 0 <= i < 4 ==> 0 <= s[i] < 64
  {
    [a / 4, (a % 4) * 16 + b / 16, (b % 16) * 4 + c / 64, c % 64]
  }

  /** Three bytes make four symbols; one or two left over are zero-filled and padded. */
  function Rfc4648(v: bytes): bytes {
    if |v| == 0 then []
    else if |v| == 1 then Symbols(Group3(v[0], 0, 0)[..2]) + [PAD, PAD]
    else if |v| == 2 then Symbols(Group3(v[0], v[1], 0)[..3]) + [PAD]
    else Symbols(Group3(v[0], v[1], v[2])) + Rfc4648(v[3..])
  }

  lemma Spread1(a: int, w: nat)
    requires a >= 0
    ensures Spread([a], w) == BitsOf(a, w)
  {
    assert [a][1..] == [];
    assert Spread([], w) == [];
    assert BitsOf(a, w) + [] == BitsOf(a, w);
  }

  lemma TwoMore(v: nat, n: nat)
    ensures ShiftRight(v, n + 2) == ShiftRight(v / 4, n)
    ensures LowBits(v, n + 2) == LowBits(v / 4, n) * 4 + v % 4
  {
    assert v / 2 / 2 == v / 4;
    assert ShiftRight(v, n + 2) == ShiftRight(v / 2, n + 1);
    assert LowBits(v, n + 2) == LowBits(v / 2, n + 1) * 2 + v % 2;
    assert LowBits(v / 2, n + 1) == LowBits(v / 4, n) * 2 + v / 2 % 2;
  }

  lemma Shifts(v: nat)
    ensures ShiftRight(v, 2) == v / 4 && ShiftRight(v, 4) == v / 16 && ShiftRight(v, 6) == v / 64
    ensures LowBits(v, 2) == v % 4 && LowBits(v, 4) == v % 16 && LowBits(v, 6) == v % 64
  {
    TwoMore(v, 0);
    TwoMore(v / 4, 0);
    TwoMore(v / 4 / 4, 0);
    TwoMore(v, 2);
    TwoMore(v / 4, 2);
    TwoMore(v, 4);
  }

  /** Splits off the low bits, named by the value they hold. */
  lemma SplitAt(v: nat, a: nat, b: nat)
    ensures b == 2 ==> BitsOf(v, a + 2) == BitsOf(v / 4, a) + BitsOf(v % 4, 2)
    ensures b == 4 ==> BitsOf(v, a + 4) == BitsOf(v / 16, a) + BitsOf(v % 16, 4)
    ensures b == 6 ==> BitsOf(v, a + 6) == BitsOf(v / 64, a) + BitsOf(v % 64, 6)
  {
    Shifts(v);
    SplitBits(v, a, b);
    MaskedBits(v, b);
  }

  lemma Reassociate<T>(a: seq<T>, b: seq<T>, c: seq<T>, d: seq<T>, e: seq<T>, f: seq<T>)
    ensures (a + b) + ((c + d) + (e + f)) == a + ((b + c) + ((d + e) + f))
  {
  }

  /** Four sextets hold exactly the bits of three bytes. */
  lemma Group3Bits(a: byte, b: byte, c: byte)
    ensures Spread(Group3(a, b, c), 6) == Spread([a, b, c], 8)
  {
    var s := Group3(a, b, c);
    SplitAt(a, 6, 2);
    SplitAt(b, 4, 4);
    SplitAt(c, 2, 6);
    SplitAt(s[1], 2, 4);
    SplitAt(s[2], 4, 2);
    assert s[1] / 16 == a % 4 && s[1] % 16 == b / 16;
    assert s[2] / 4 == b % 16 && s[2] % 4 == c / 64;
    SpreadOut3(a, b, c);
    SpreadOut4(s[0], s[1], s[2], s[3]);
    Reassociate(BitsOf(a / 4, 6), BitsOf(a % 4, 2), BitsOf(b / 16, 4), BitsOf(b % 16, 4),
                BitsOf(c / 64, 2), BitsOf(c % 64, 6));
  }

  lemma SpreadCons(d: nat, s: seq<int>, w: nat)
    ensures Spread([d] + s, w) == BitsOf(d, w) + Spread(s, w)
  {
    assert ([d] + s)[1..] == s;
  }

  lemma SpreadOut3(a: nat, b: nat, c: nat)
    ensures Spread([a, b, c], 8) == BitsOf(a, 8) + (BitsOf(b, 8) + BitsOf(c, 8))
  {
    Spread1(c, 8);
    SpreadCons(b, [c], 8);
    SpreadCons(a, [b] + [c], 8);
    assert [a] + ([b] + [c]) == [a, b, c];
  }

  lemma SpreadOut4(a: nat, b: nat, c: nat, d: nat)
    ensures Spread([a, b, c, d], 6) == BitsOf(a, 6) + (BitsOf(b, 6) + (BitsOf(c, 6) + BitsOf(d, 6)))
  {
    Spread1(d, 6);
    SpreadCons(c, [d], 6);
    SpreadCons(b, [c] + [d], 6);
    SpreadCons(a, [b] + ([c] + [d]), 6);
    assert [a] + ([b] + ([c] + [d])) == [a, b, c, d];
  }

  // ---------- the stream is the group form ----------

  lemma RegroupThree(v: bytes, fill: seq<bool>)
    requires |v| >= 3
    ensures Regroup(Spread(v, 8) + fill, 6)
         == Group3(v[0], v[1], v[2]) + Regroup(Spread(v[3..], 8) + fill, 6)
  {
    var s, rest := Group3(v[0], v[1], v[2]), Spread(v[3..], 8) + fill;
    assert v == [v[0], v[1], v[2]] + v[3..];
    SpreadAppend([v[0], v[1], v[2]], v[3..], 8);
    Group3Bits(v[0], v[1], v[2]);
    Associative(Spread(s, 6), Spread(v[3..], 8), fill);
    Pow2Values();
    RegroupSpread(s, 6, rest);
  }

  /** A zero-filled tail is the front of the group its missing bytes would complete. */
  lemma RegroupTail(v: bytes)
    requires |v| == 1 || |v| == 2
    ensures SextetsOf(v) == Group3(v[0], if |v| == 2 then v[1] else 0, 0)[..|v| + 1]
  {
    hide Spread, Group3;
    var s := Group3(v[0], if |v| == 2 then v[1] else 0, 0);
    var n := |v| + 1;
    TailBits(v, s);
    Pow2Values();
    RegroupSpread(s[..n], 6, []);
    assert Spread(s[..n], 6) + [] == Spread(s[..n], 6);
  }

  /** The bits of one or two bytes, zero-filled, are those of the front of their group. */
  lemma TailBits(v: bytes, s: seq<int>)
    requires |v| == 1 || |v| == 2
    requires s == Group3(v[0], if |v| == 2 then v[1] else 0, 0)
    ensures Spread(v, 8) + Falses(FillBits(|v|)) == Spread(s[..|v| + 1], 6)
  {
    hide Spread, Group3;
    var b := if |v| == 2 then v[1] else 0;
    var n := |v| + 1;
    assert v + Zeros(3 - |v|) == [v[0], b, 0];
    SpreadAppend(v, Zeros(3 - |v|), 8);
    SpreadZeros(3 - |v|, 8);
    Group3Bits(v[0], b, 0);
    SpreadAppend(s[..n], s[n..], 6);
    assert s == s[..n] + s[n..];
    TailZeros(v, s);
    SpreadZeros(4 - n, 6);
    SpreadLength(v, 8);
    SpreadLength(s[..n], 6);
    SameFront(Spread(v, 8), (3 - |v|) * 8, Spread(s[..n], 6), (4 - n) * 6, FillBits(|v|));
  }

  lemma TailZeros(v: bytes, s: seq<int>)
    requires |v| == 1 || |v| == 2
    requires s == Group3(v[0], if |v| == 2 then v[1] else 0, 0)
    ensures s[|v| + 1..] == Zeros(3 - |v|)
  {
  }

  lemma SameFront(a: seq<bool>, i: nat, b: seq<bool>, j: nat, fill: nat)
    requires a + Falses(i) == b + Falses(j) && |a| + fill == |b|
    ensures a + Falses(fill) == b
  {
    assert (a + Falses(i))[..|b|] == a + Falses(fill);
    assert (b + Falses(j))[..|b|] == b;
  }

  lemma EncodeThree(v: bytes)
    requires |v| >= 3
    ensures Encode(v) == Symbols(Group3(v[0], v[1], v[2])) + Encode(v[3..])
  {
    hide Group3, Regroup, Spread;
    var s := Group3(v[0], v[1], v[2]);
    var rest := SextetsOf(v[3..]);
    RegroupThree(v, Falses(FillBits(|v|)));
    assert SextetsOf(v) == s + rest;
    assert Symbols(s + rest) == Symbols(s) + Symbols(rest);
    Associative(Symbols(s), Symbols(rest), Pads(Padding(|v|)));
  }

  lemma FewPads()
    ensures Padding(1) == 2 && Padding(2) == 1
    ensures Pads(1) == [PAD] && Pads(2) == [PAD, PAD]
  {
  }

  lemma EncodeOne(v: bytes)
    requires |v| == 1
    ensures Encode(v) == Rfc4648(v)
  {
    hide SextetsOf, Group3, Symbols, IsSymbol, Pads, Padding;
    RegroupTail(v);
    FewPads();
  }

  lemma EncodeTwo(v: bytes)
    requires |v| == 2
    ensures Encode(v) == Rfc4648(v)
  {
    hide SextetsOf, Group3, Symbols, IsSymbol, Pads, Padding;
    RegroupTail(v);
    FewPads();
  }

  lemma NothingToEncode(v: bytes)
    requires v == []
    ensures Encode(v) == []
  {
    assert Spread(v, 8) + Falses(0) == [];
  }

  /** The streaming encoder computes the group form, for every byte string. */
  lemma {:induction false} EncodeIsRfc4648(v: bytes)
    ensures Encode(v) == Rfc4648(v)
  {
    hide Encode, Group3, Symbols;
    if v == [] {
      NothingToEncode(v);
    } else if |v| == 1 {
      EncodeOne(v);
    } else if |v| == 2 {
      EncodeTwo(v);
    } else {
      EncodeIsRfc4648(v[3..]);
      EncodeThree(v);
    }
  }

  /** Padded text has four characters for every three bytes, rounded up. */
  lemma {:induction false} EncodedLength(v: bytes)
    ensures |Encode(v)| == 4 * ((|v| + 2) / 3)
    ensures |EncodeUnpadded(v)| == |Encode(v)| - Padding(|v|)
  {
    hide SextetsOf, Group3;
    if v == [] {
      NothingToEncode(v);
    } else if |v| == 1 {
      EncodeOne(v);
    } else if |v| == 2 {
      EncodeTwo(v);
    } else {
      EncodedLength(v[3..]);
      EncodeThree(v);
    }
  }

  // ---------- decoding undoes encoding ----------

  lemma SextetsBits(v: bytes)
    ensures Spread(SextetsOf(v), 6) == Spread(v, 8) + Falses(FillBits(|v|))
  {
    var all := Spread(v, 8) + Falses(FillBits(|v|));
    SpreadLength(v, 8);
    var k := FillBitsFill(|v|);
    RegroupLength(all, 6);
    assert |all| == 6 * k;
    assert |Regroup(all, 6)| == k;
    SpreadRegroup(all, 6);
  }

  /** The padding characters read as zero sextets, whose bits become one zero byte each. */
  lemma PadBits(v: bytes, p: nat)
    requires p == 0 || p == Padding(|v|)
    ensures BytesOf(SextetsOf(v) + Zeros(p)) == v + Zeros(p)
  {
    hide SextetsOf, Regroup, Spread, BitsOf;
    var fill := FillBits(|v|);
    SpreadAppend(SextetsOf(v), Zeros(p), 6);
    SpreadZeros(p, 6);
    SextetsBits(v);
    var tail := Falses(fill) + Falses(p * 6);
    Associative(Spread(v, 8), Falses(fill), Falses(p * 6));
    Pow2Values();
    RegroupSpread(v, 8, tail);
    assert Regroup(tail, 8) == Zeros(p) by {
      if p == 0 {
        RegroupLast(tail, 8);
      } else {
        SpreadZeros(p, 8);
        assert tail == Spread(Zeros(p), 8) + [];
        RegroupSpread(Zeros(p), 8, []);
        RegroupLast([], 8);
      }
    }
  }

  lemma SextetsOfEncoding(v: bytes, p: nat)
    ensures var t := EncodeUnpadded(v) + Pads(p);
            && Sextets(t) == SextetsOf(v) + Zeros(p)
            && forall i :: 0 <= i < |t| ==> Sextet(t[i]) >= 0
  {
    var t := EncodeUnpadded(v) + Pads(p);
    forall i | 0 <= i < |t|
      ensures Sextets(t)[i] == (SextetsOf(v) + Zeros(p))[i] && Sextet(t[i]) >= 0
    {
      if i < |SextetsOf(v)| {
        SymbolRoundTrip(SextetsOf(v)[i]);
      }
    }
    assert |Sextets(t)| == |SextetsOf(v) + Zeros(p)|;
  }

  /** With the padding left on, one zero byte appears for each '='. */
  lemma RawDecodeOfEncoding(v: bytes)
    ensures DecodeRaw(Encode(v)) == Ok(v + Zeros(Padding(|v|)))
    ensures DecodeRaw(EncodeUnpadded(v)) == Ok(v)
  {
    hide SextetsOf, BytesOf, Symbols, IsSymbol, Sextet;
    EncodedLength(v);
    SextetsOfEncoding(v, Padding(|v|));
    PadBits(v, Padding(|v|));
    SextetsOfEncoding(v, 0);
    PadBits(v, 0);
    assert EncodeUnpadded(v) + Pads(0) == EncodeUnpadded(v);
    assert v + Zeros(0) == v;
  }

  lemma {:induction false} CountPadOfEncoding(s: bytes, p: nat)
    requires forall i :: 0 <= i < |s| ==> IsSymbol(s[i])
    ensures CountPad(s + Pads(p)) == p
  {
    var t := s + Pads(p);
    if p > 0 {
      assert t[..|t| - 1] == s + Pads(p - 1);
      CountPadOfEncoding(s, p - 1);
    } else {
      assert t == s;
      NoPad(s);
    }
  }

  lemma {:induction false} NoPad(s: bytes)
    requires forall i :: 0 <= i < |s| ==> s[i] != PAD
    ensures CountPad(s) == 0
  {
    if s != [] { NoPad(s[..|s| - 1]); }
  }

  lemma DecodeUndoesEncode(v: bytes)
    ensures Decode(Encode(v)) == Ok(v)
    ensures Decode(EncodeUnpadded(v)) == Ok(v)
  {
    RawDecodeOfEncoding(v);
    CountPadOfEncoding(EncodeUnpadded(v), Padding(|v|));
    NoPad(EncodeUnpadded(v));
    assert (v + Zeros(Padding(|v|)))[..|v|] == v;
    assert v[..|v|] == v;
  }

  /** Translating to the url alphabet and back is the identity on standard text. */
  lemma FromUrlUndoesToUrl(s: bytes)
    requires forall i :: 0 <= i < |s| ==> Sextet(s[i]) >= 0
    ensures FromUrl(ToUrl(s)) == s
  {
  }

  lemma UrlDecodeUndoesUrlEncode(v: bytes)
    ensures UrlDecode(UrlEncode(v)) == Ok(v)
    ensures UrlDecode(UrlEncodeUnpadded(v)) == Ok(v)
  {
    DecodeUndoesEncode(v);
    RawDecodeOfEncoding(v);
    FromUrlUndoesToUrl(Encode(v));
    FromUrlUndoesToUrl(EncodeUnpadded(v));
  }

  /** The trimming decoder loses exactly the trailing zero bytes of the original. */
  lemma TrimmingDecodeOfEncoding(v: bytes)
    ensures DecodeTrimming(Encode(v)) == Ok(TrimRight(v))
    ensures DecodeTrimming(EncodeUnpadded(v)) == Ok(TrimRight(v))
  {
    RawDecodeOfEncoding(v);
    TrimAppendedZeros(v, Padding(|v|));
  }

  lemma TrimmingAgreesIff(v: bytes)
    ensures DecodeTrimming(Encode(v)) == Decode(Encode(v)) <==> v == [] || v[|v| - 1] != 0
  {
    TrimmingDecodeOfEncoding(v);
    DecodeUndoesEncode(v);
    TrimIsIdentityIff(v);
  }

  /** No encoded part can contain a dot, and no standard text a dash or a line end. */
  lemma EncodedAlphabet(v: bytes)
    ensures DOT !in UrlEncode(v) && DOT !in UrlEncodeUnpadded(v)
    ensures forall c :: c in Encode(v) ==> Sextet(c) >= 0
  {
    RawDecodeOfEncoding(v);
  }
}
