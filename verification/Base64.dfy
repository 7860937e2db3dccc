/**
 The base64 codecs: sections 4 and 5 of RFC 4648 as streams through the bit regrouper. Three
 families share them: padded, unpadded url, and the decoders that trim trailing NULs.
 */
module Base64 {
  import opened Bytes
  import opened Bits
  import opened TransformWidth

  const PAD: byte := '=' as int
  const DOT: byte := '.' as int

  datatype DecodeError =
    | InvalidCharacter  // the lookup table's dataflow exception
    | LengthError       // more '=' than decoded bytes: the resize underflows

  // ---------- the alphabet ----------

  function Symbol(d: int): (c: byte)
    requires 0 <= d < 64
  {
    if d < 26 then d + 'A' as int
    else if d < 52 then d - 26 + 'a' as int
    else if d < 62 then d - 52 + '0' as int
    else if d == 62 then '+' as int
    else '/' as int
  }

  /** The decoder's lookup table: '=' reads as zero, a character outside the alphabet as -1. */
  function Sextet(c: byte): (d: int)
    ensures -1 <= d < 64
  {
    if 'A' as int <= c <= 'Z' as int then c - 'A' as int
    else if 'a' as int <= c <= 'z' as int then c - 'a' as int + 26
    else if '0' as int <= c <= '9' as int then c - '0' as int + 52
    else if c == '+' as int then 62
    else if c == '/' as int then 63
    else if c == PAD then 0
    else -1
  }

  predicate IsSymbol(c: byte) {
    Sextet(c) >= 0 && c != PAD
  }

  lemma SymbolRoundTrip(d: int)
    requires 0 <= d < 64
    ensures Sextet(Symbol(d)) == d && IsSymbol(Symbol(d))
  {
  }

  function Symbols(s: seq<int>): (t: bytes)
    requires forall i :: 0 <= i < |s| ==> 0 <= s[i] < 64
    ensures |t| == |s|
    ensures forall i :: 0 <= i < |t| ==> IsSymbol(t[i])
  {
    seq(|s|, i requires 0 <= i < |s| => Symbol(s[i]))
  }

  function Sextets(s: bytes): (t: seq<int>)
    ensures |t| == |s|
    ensures forall i :: 0 <= i < |t| ==> -1 <= t[i] < 64
  {
    seq(|s|, i requires 0 <= i < |s| => Sextet(s[i]))
  }

  // ---------- what the streams compute ----------

  function Padding(n: nat): (p: nat) {
    (3 - n % 3) % 3
  }

  function Pads(n: nat): (p: bytes)
    ensures |p| == n && forall i :: 0 <= i < n ==> p[i] == PAD
  {
    seq(n, _ => PAD)
  }

  /** The sextets of a byte string. */
  function SextetsOf(v: bytes): (s: seq<int>)
    ensures forall i :: 0 <= i < |s| ==> 0 <= s[i] < 64
  {
    RegroupDigits(Spread(v, 8) + Falses(FillBits(|v|)), 6);
    Pow2Values();
    Regroup(Spread(v, 8) + Falses(FillBits(|v|)), 6)
  }

  /** The whole bytes in a string of sextets; bits left over are dropped. */
  function BytesOf(s: seq<int>): (v: bytes) {
    RegroupDigits(Spread(s, 6), 8);
    Pow2Values();
    Regroup(Spread(s, 6), 8)
  }

  predicate Decodable(s: bytes) {
    && |s| % 4 != 1
    && forall i :: 0 <= i < |s| ==> Sextet(s[i]) >= 0
  }

  // ---------- the codecs ----------

  function EncodeUnpadded(v: bytes): bytes {
    Symbols(SextetsOf(v))
  }

  function Encode(v: bytes): bytes {
    EncodeUnpadded(v) + Pads(Padding(|v|))
  }

  /** Decoding before any padding is taken off. */
  function DecodeRaw(s: bytes): Result<bytes, DecodeError> {
    if Decodable(s) then Ok(BytesOf(Sextets(s))) else Err(InvalidCharacter)
  }

  function CountPad(s: bytes): nat {
    if s == [] then 0 else CountPad(s[..|s| - 1]) + (if s[|s| - 1] == PAD then 1 else 0)
  }

  function Decode(s: bytes): Result<bytes, DecodeError> {
    match DecodeRaw(s)
    case Err(e) => Err(e)
    case Ok(v) =>
      if CountPad(s) > |v| then Err(LengthError) else Ok(v[..|v| - CountPad(s)])
  }

  /** The decoder of the release application: trailing NULs go, padding or not. */
  function DecodeTrimming(s: bytes): Result<bytes, DecodeError> {
    match DecodeRaw(s)
    case Err(e) => Err(e)
    case Ok(v) => Ok(TrimRight(v))
  }

  function Replace(s: bytes, from: byte, to: byte): (t: bytes)
    ensures |t| == |s|
  {
    seq(|s|, i requires 0 <= i < |s| => if s[i] == from then to else s[i])
  }

  function ToUrl(s: bytes): (t: bytes) {
    Replace(Replace(s, '+' as int, '-' as int), '/' as int, '_' as int)
  }

  function FromUrl(s: bytes): (t: bytes) {
    Replace(Replace(s, '-' as int, '+' as int), '_' as int, '/' as int)
  }

  function UrlEncode(v: bytes): bytes {
    ToUrl(Encode(v))
  }

  function UrlEncodeUnpadded(v: bytes): bytes {
    ToUrl(EncodeUnpadded(v))
  }

  function UrlDecode(s: bytes): Result<bytes, DecodeError> {
    Decode(FromUrl(s))
  }

  // ---------- the streams refine them ----------

  /** The encoding iterator: 6-bit digits taken from bytes, mapped through the alphabet. */
  method EncodeStream(v: bytes) returns (s: bytes)
    ensures s == EncodeUnpadded(v)
  {
    var digits := SextetsFromBytes(v);
    RegroupDigits(Spread(v, 8) + Falses(FillBits(|v|)), 6);
    Pow2Values();
    s := Symbols(digits);
  }

  /** The decoding iterator: bytes taken from the sextets the lookup table gives. */
  method DecodeStream(s: bytes) returns (r: Result<bytes, DecodeError>)
    ensures r == DecodeRaw(s)
  {
    var ok, digits := BytesFromSextets(Sextets(s));
    assert forall i :: 0 <= i < |s| ==> Sextets(s)[i] == Sextet(s[i]);
    if !ok { return Err(InvalidCharacter); }
    RegroupDigits(Spread(Sextets(s), 6), 8);
    Pow2Values();
    r := Ok(digits);
  }
}
