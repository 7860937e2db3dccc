/** The compact token form of section 7.1 of RFC 7515: creating it, splitting it, verifying it. */
module Jwt {
  import opened Bytes
  import opened Base64
  import opened Base64Laws
  import opened Json
  import opened ReturnCodes

  // ---------- searching a string ----------

  function FindFirst(s: bytes, c: byte): (r: Option<nat>)
    ensures r.None? <==> c !in s
    ensures r.Some? ==> r.value < |s| && s[r.value] == c && c !in s[..r.value]
  {
    if s == [] then None
    else if s[0] == c then Some(0)
    else
      var r := FindFirst(s[1..], c);
      if r.None? then None else Some(r.value + 1)
  }

  function FindLast(s: bytes, c: byte): (r: Option<nat>)
    ensures r.None? <==> c !in s
    ensures r.Some? ==> r.value < |s| && s[r.value] == c && c !in s[r.value + 1..]
  {
    if s == [] then None
    else if s[|s| - 1] == c then Some(|s| - 1)
    else FindLast(s[..|s| - 1], c)
  }

  function Count(s: bytes, c: byte): nat {
    if s == [] then 0 else (if s[0] == c then 1 else 0) + Count(s[1..], c)
  }

  // ---------- the three parts ----------

  datatype Parts = Parts(header: bytes, payload: bytes, signature: bytes, signed: bytes)

  /** Splits at the first and at the last dot; the signed portion is everything before the last. */
  function Split(token: bytes): (r: Option<Parts>) {
    var first, last := FindFirst(token, DOT), FindLast(token, DOT);
    if |token| < 2 || first.None? || last.None? || first == last then None
    else
      SplitOrder(token);
      var i, j := first.value, last.value;
      Some(Parts(token[..i], token[i + 1..j], token[j + 1..], token[..j]))
  }

  lemma {:induction false} FirstIs(s: bytes, c: byte, i: nat)
    requires i < |s| && s[i] == c && c !in s[..i]
    ensures FindFirst(s, c) == Some(i)
  {
    if i > 0 {
      assert s[0] == s[..i][0];
      assert s[1..][..i - 1] == s[..i][1..];
      FirstIs(s[1..], c, i - 1);
    }
  }

  lemma {:induction false} LastIs(s: bytes, c: byte, i: nat)
    requires i < |s| && s[i] == c && c !in s[i + 1..]
    ensures FindLast(s, c) == Some(i)
  {
    if i < |s| - 1 {
      assert s[|s| - 1] == s[i + 1..][|s| - i - 2];
      assert s[..|s| - 1][i + 1..] == s[i + 1..][..|s| - i - 2];
      LastIs(s[..|s| - 1], c, i);
    }
  }

  lemma {:induction false} FirstAtMost(s: bytes, c: byte, i: nat)
    requires i < |s| && s[i] == c
    ensures FindFirst(s, c).Some? && FindFirst(s, c).value <= i
  {
    if s[0] != c { FirstAtMost(s[1..], c, i - 1); }
  }

  lemma SplitOrder(token: bytes)
    ensures DOT in token ==> FindFirst(token, DOT).value <= FindLast(token, DOT).value
  {
    if DOT in token { FirstAtMost(token, DOT, FindLast(token, DOT).value); }
  }

  function Join(header: bytes, payload: bytes, signature: bytes): bytes {
    header + [DOT] + payload + [DOT] + signature
  }

  /** Whatever splits rejoins to the same token, and its outer parts hold no dot. */
  lemma SplitRejoins(token: bytes)
    ensures Split(token).Some? ==>
      var p := Split(token).value;
      && Join(p.header, p.payload, p.signature) == token
      && p.signed == p.header + [DOT] + p.payload
      && DOT !in p.header && DOT !in p.signature
  {
    hide FindFirst, FindLast;
    if Split(token).Some? {
      SplitOrder(token);
      CutTwice(token, FindFirst(token, DOT).value, FindLast(token, DOT).value);
    }
  }

  lemma CutTwice(t: bytes, i: nat, j: nat)
    requires i < j < |t|
    ensures t[..j] == t[..i] + [t[i]] + t[i + 1..j]
    ensures t == t[..i] + [t[i]] + t[i + 1..j] + [t[j]] + t[j + 1..]
  {
    assert t[..j] == t[..i] + [t[i]] + t[i + 1..j];
    assert t == t[..j] + [t[j]] + t[j + 1..];
  }

  /** Parts without a dot are found again. */
  lemma SplitOfJoin(h: bytes, p: bytes, s: bytes)
    requires DOT !in h && DOT !in s
    ensures Split(Join(h, p, s)) == Some(Parts(h, p, s, h + [DOT] + p))
  {
    hide FindFirst, FindLast;
    var t := Join(h, p, s);
    var n, m := |h|, |h| + 1 + |p|;
    assert t[n] == DOT && t[m] == DOT;
    assert t[..n] == h && t[m + 1..] == s && t[n + 1..m] == p && t[..m] == h + [DOT] + p;
    FirstIs(t, DOT, n);
    LastIs(t, DOT, m);
  }

  // ---------- is it a token? ----------

  /** The header behind an encoded part; any exception on the way reads as none. */
  function HeaderOf(text: JsonText, encoded: bytes): Option<Json> {
    match UrlDecode(encoded)
    case Err(_) => None
    case Ok(v) => text.parse(v)
  }

  predicate HasFields(h: Json, required: seq<(string, bytes)>) {
    && Contains(h, "alg") && h.fields["alg"].Str?
    && forall i :: 0 <= i < |required| ==>
         Contains(h, required[i].0) && h.fields[required[i].0] == Str(required[i].1)
  }

  function IsRealJwt(text: JsonText, token: bytes, required: seq<(string, bytes)>): (r: bool) {
    var first, last := FindFirst(token, DOT), FindLast(token, DOT);
    if first.None? || last.None? || first == last || Count(token, DOT) != 2 then false
    else
      var h := HeaderOf(text, token[..first.value]);
      h.Some? && HasFields(h.value, required)
  }

  // ---------- certificates and signatures ----------

  /** The platform's certificate store and signature check. */
  datatype X509 = X509(
    load: bytes -> Option<ErrorCode>,
    chainTrusted: (seq<bytes>, bytes, bytes) -> Result<bool, ErrorCode>,
    signatureValid: (bytes, bytes, bytes) -> Result<bool, ErrorCode>)

  /** Loads one entry of the chain; an entry that is not a string throws. */
  function LoadOne(x: X509, cert: Json): Result<bytes, Failure> {
    if !cert.Str? then Err(OtherException)
    else match x.load(cert.s)
      case Some(code) => Err(JwtFailure(code))
      case None => Ok(cert.s)
  }

  function LoadAll(x: X509, certs: seq<Json>): Result<seq<bytes>, Failure> {
    if certs == [] then Ok([])
    else match LoadOne(x, certs[0])
      case Err(f) => Err(f)
      case Ok(c) => match LoadAll(x, certs[1..])
        case Err(f) => Err(f)
        case Ok(cs) => Ok([c] + cs)
  }

  /** The checks behind a signature: intermediates, leaf, chain and then the signature itself. */
  function VerifyFailure(x: X509, header: Json, signed: bytes, signature: bytes, suffix: bytes): Option<Failure> {
    if !Contains(header, "x5c") || !header.fields["x5c"].Array? || header.fields["x5c"].items == [] then
      Some(OtherException)
    else
      var chain := header.fields["x5c"].items;
      match LoadAll(x, chain[1..])
      case Err(f) => Some(f)
      case Ok(intermediates) => match LoadOne(x, chain[0])
        case Err(f) => Some(f)
        case Ok(leaf) => match x.chainTrusted(intermediates, leaf, suffix)
          case Err(code) => Some(JwtFailure(code))
          case Ok(false) => Some(JwtFailure(CRYPTO_SIGNING_CHAIN))
          case Ok(true) => match x.signatureValid(leaf, signed, signature)
            case Err(code) => Some(JwtFailure(code))
            case Ok(false) => Some(JwtFailure(CRYPTO_SIGNING_VERIFY))
            case Ok(true) => None
  }

  /** Some leaf of the header's chain is trusted and its key signed exactly these bytes. */
  ghost predicate Verified(x: X509, header: Json, signed: bytes, signature: bytes, suffix: bytes) {
    exists intermediates: seq<bytes>, leaf: bytes ::
      && Contains(header, "x5c")
      && header.fields["x5c"] == Array([Str(leaf)] + Strs(intermediates))
      && x.chainTrusted(intermediates, leaf, suffix) == Ok(true)
      && x.signatureValid(leaf, signed, signature) == Ok(true)
  }

  function Strs(s: seq<bytes>): (r: seq<Json>)
    ensures |r| == |s|
  {
    seq(|s|, i requires 0 <= i < |s| => Str(s[i]))
  }

  lemma {:induction false} LoadedAreStrings(x: X509, certs: seq<Json>)
    ensures LoadAll(x, certs).Ok? ==> certs == Strs(LoadAll(x, certs).value)
  {
    if certs != [] && LoadAll(x, certs).Ok? {
      LoadedAreStrings(x, certs[1..]);
      assert certs == [certs[0]] + certs[1..];
    }
  }

  lemma NoFailureIsVerified(x: X509, header: Json, signed: bytes, signature: bytes, suffix: bytes)
    requires VerifyFailure(x, header, signed, signature, suffix) == None
    ensures Verified(x, header, signed, signature, suffix)
  {
    var chain := header.fields["x5c"].items;
    LoadedAreStrings(x, chain[1..]);
    assert chain == [chain[0]] + chain[1..];
    assert header.fields["x5c"] == Array([Str(chain[0].s)] + Strs(LoadAll(x, chain[1..]).value));
  }

  // ---------- the token object ----------

  datatype TokenState = TokenState(header: Json, claims: Json, signature: bytes)

  function NewToken(): TokenState {
    TokenState(Object(map["alg" := Str(Ascii("RS256")), "typ" := Str(Ascii("JWT"))]), Null, [])
  }

  /** A JSON part: a bad character has its own code, every other failure reads as a parse error. */
  function DecodeJson(text: JsonText, encoded: bytes): Result<Json, Failure> {
    match UrlDecode(encoded)
    case Err(InvalidCharacter) => Err(JwtFailure(BASE64_ERROR))
    case Err(LengthError) => Err(JwtFailure(JWT_JSON_PARSE))
    case Ok(v) =>
      var j := text.parse(v);
      if j.Some? then Ok(j.value) else Err(JwtFailure(JWT_JSON_PARSE))
  }

  /** The signature part: it is stored before it is checked, and looking up x5c may add a null member. */
  function ParseSignature(x: X509, st: TokenState, parts: Parts, suffix: bytes): (TokenState, Option<Failure>) {
    match UrlDecode(parts.signature)
    case Err(InvalidCharacter) => (st, Some(JwtFailure(BASE64_ERROR)))
    case Err(LengthError) => (st, Some(OtherException))
    case Ok(sig) =>
      var after := TokenState(AfterLookup(st.header, "x5c"), st.claims, sig);
      (after, VerifyFailure(x, st.header, parts.signed, sig, suffix))
  }

  function ParseParts(text: JsonText, x: X509, st: TokenState, parts: Parts, verify: bool, suffix: bytes)
    : (TokenState, Option<Failure>)
  {
    var h := if parts.header == [] then Ok(st.header) else DecodeJson(text, parts.header);
    if h.Err? then (st, Some(h.error))
    else
      var st1 := st.(header := h.value);
      var c := if parts.payload == [] then Ok(st1.claims) else DecodeJson(text, parts.payload);
      if c.Err? then (st1, Some(c.error))
      else
        var st2 := st1.(claims := c.value);
        if parts.signature == [] || !verify then (st2, None)
        else ParseSignature(x, st2, parts, suffix)
  }

  /** The state a parse leaves, and the failure it throws if it does. */
  function Parse(text: JsonText, x: X509, st: TokenState, token: bytes, verify: bool, suffix: bytes)
    : (TokenState, Option<Failure>)
  {
    var parts := Split(token);
    if parts.None? then (st, Some(JwtFailure(GENERAL_ERROR)))
    else ParseParts(text, x, st, parts.value, verify, suffix)
  }

  function WithTimes(claims: Json, iat: int, exp: int): Result<Json, JsonError> {
    match Assign(claims, "iat", Number(iat))
    case Err(e) => Err(e)
    case Ok(c) => Assign(c, "exp", Number(exp))
  }

  function TokenText(text: JsonText, st: TokenState): bytes {
    Join(UrlEncode(text.dump(st.header)), UrlEncode(text.dump(st.claims)), UrlEncode(st.signature))
  }

  class JsonWebToken {
    const text: JsonText
    const x509: X509
    var header: Json
    var jwt: Json
    var signature: bytes

    function State(): TokenState
      reads this
    {
      TokenState(header, jwt, signature)
    }

    constructor (text: JsonText, x509: X509)
      ensures State() == NewToken() && this.text == text && this.x509 == x509
    {
      this.text, this.x509 := text, x509;
      header := Object(map["alg" := Str(Ascii("RS256")), "typ" := Str(Ascii("JWT"))]);
      jwt, signature := Null, [];
    }

    method SetHeader(header: Json)
      modifies this`header
      ensures this.header == header
    {
      this.header := header;
    }

    method SetPayload(payload: Json)
      modifies this`jwt
      ensures jwt == payload
    {
      jwt := payload;
    }

    /** Stamps the claims with the two clock readings and prints the token. */
    method CreateToken(now: int, later: int) returns (r: Result<bytes, Failure>)
      modifies this`jwt
      ensures r.Ok? <==> WithTimes(old(jwt), now, later + 1800).Ok?
      ensures r.Ok? ==> WithTimes(old(jwt), now, later + 1800) == Ok(jwt) && r == Ok(TokenText(text, State()))
      ensures r.Err? ==> r == Err(OtherException) && jwt == old(jwt)
    {
      var headerText := text.dump(header);
      match Assign(jwt, "iat", Number(now)) {
        case Err(_) => return Err(OtherException);
        case Ok(stamped) => jwt := stamped;
      }
      match Assign(jwt, "exp", Number(later + 1800)) {
        case Err(_) => return Err(OtherException);
        case Ok(stamped) => jwt := stamped;
      }
      var payloadText := text.dump(jwt);
      var headerBase64 := UrlEncode(headerText);
      var payloadBase64 := UrlEncode(payloadText);
      var signatureBase64 := UrlEncode(signature);
      r := Ok(headerBase64 + [DOT] + payloadBase64 + [DOT] + signatureBase64);
    }

    method ParseToken(token: bytes, verify: bool, suffix: bytes) returns (failure: Option<Failure>)
      modifies this
      ensures (State(), failure) == Parse(text, x509, old(State()), token, verify, suffix)
    {
      var parts := Split(token);
      if parts.None? { return Some(JwtFailure(GENERAL_ERROR)); }
      var headerBase64, payloadBase64 := parts.value.header, parts.value.payload;
      var signatureBase64 := parts.value.signature;
      if headerBase64 != [] {
        match DecodeJson(text, headerBase64) {
          case Err(f) => return Some(f);
          case Ok(j) => header := j;
        }
      }
      if payloadBase64 != [] {
        match DecodeJson(text, payloadBase64) {
          case Err(f) => return Some(f);
          case Ok(j) => jwt := j;
        }
      }
      if signatureBase64 != [] && verify {
        match UrlDecode(signatureBase64) {
          case Err(InvalidCharacter) => return Some(JwtFailure(BASE64_ERROR));
          case Err(LengthError) => return Some(OtherException);
          case Ok(sig) => signature := sig;
        }
        failure := VerifyFailure(x509, header, parts.value.signed, signature, suffix);
        header := AfterLookup(header, "x5c");
        return;
      }
      return None;
    }
  }

  // ---------- laws ----------

  lemma EncodedJson(text: JsonText, j: Json)
    requires text.RoundTrips(j)
    ensures UrlEncode(text.dump(j)) != [] && DecodeJson(text, UrlEncode(text.dump(j))) == Ok(j)
  {
    UrlDecodeUndoesUrlEncode(text.dump(j));
    EncodedLength(text.dump(j));
  }

  /** Parsing a created token recovers header and claims: no encoded part can hold a dot. */
  lemma ParseUndoesCreate(text: JsonText, x: X509, st: TokenState, parsed: TokenState, suffix: bytes)
    requires text.RoundTrips(st.header) && text.RoundTrips(st.claims)
    ensures Parse(text, x, parsed, TokenText(text, st), false, suffix)
         == (TokenState(st.header, st.claims, parsed.signature), None)
  {
    EncodedAlphabet(text.dump(st.header));
    EncodedAlphabet(st.signature);
    SplitOfJoin(UrlEncode(text.dump(st.header)), UrlEncode(text.dump(st.claims)), UrlEncode(st.signature));
    EncodedJson(text, st.header);
    EncodedJson(text, st.claims);
  }

  /** An unsigned created token also parses with verification on, and stays unsigned. */
  lemma ParseUnsigned(text: JsonText, x: X509, st: TokenState, suffix: bytes)
    requires text.RoundTrips(st.header) && text.RoundTrips(st.claims) && st.signature == []
    ensures Parse(text, x, NewToken(), TokenText(text, st), true, suffix) == (st, None)
  {
    EncodedAlphabet(text.dump(st.header));
    NothingToEncode([]);
    SplitOfJoin(UrlEncode(text.dump(st.header)), UrlEncode(text.dump(st.claims)), []);
    EncodedJson(text, st.header);
    EncodedJson(text, st.claims);
  }

  lemma {:induction false} NoneToCount(s: bytes, c: byte)
    requires c !in s
    ensures Count(s, c) == 0
  {
    if s != [] { NoneToCount(s[1..], c); }
  }

  lemma {:induction false} SomeToCount(s: bytes, c: byte)
    requires c in s
    ensures Count(s, c) > 0
  {
    if s[0] != c { SomeToCount(s[1..], c); }
  }

  lemma {:induction false} CountAppend(s: bytes, t: bytes, c: byte)
    ensures Count(s + t, c) == Count(s, c) + Count(t, c)
  {
    if s == [] {
      assert s + t == t;
    } else {
      assert (s + t)[1..] == s[1..] + t;
      CountAppend(s[1..], t, c);
    }
  }

  lemma JoinDots(h: bytes, p: bytes, s: bytes)
    ensures Count(Join(h, p, s), DOT) == Count(h, DOT) + Count(p, DOT) + Count(s, DOT) + 2
  {
    CountAppend(h + [DOT] + p + [DOT], s, DOT);
    CountAppend(h + [DOT] + p, [DOT], DOT);
    CountAppend(h + [DOT], p, DOT);
    CountAppend(h, [DOT], DOT);
  }

  /** A created token is recognised exactly when its header carries the required fields. */
  lemma CreatedIsReal(text: JsonText, st: TokenState, required: seq<(string, bytes)>)
    requires text.RoundTrips(st.header)
    ensures IsRealJwt(text, TokenText(text, st), required) <==> HasFields(st.header, required)
  {
    hide Count, FindFirst, FindLast, UrlEncode, UrlDecode, HasFields;
    var h, p, s := UrlEncode(text.dump(st.header)), UrlEncode(text.dump(st.claims)), UrlEncode(st.signature);
    EncodedAlphabet(text.dump(st.header));
    EncodedAlphabet(text.dump(st.claims));
    EncodedAlphabet(st.signature);
    SplitOfJoin(h, p, s);
    JoinDots(h, p, s);
    NoneToCount(h, DOT); NoneToCount(p, DOT); NoneToCount(s, DOT);
    UrlDecodeUndoesUrlEncode(text.dump(st.header));
  }

  /** A recognised token splits, its header part is the text that was examined, and it rejoins. */
  lemma RealTokensSplit(text: JsonText, token: bytes, required: seq<(string, bytes)>)
    requires IsRealJwt(text, token, required)
    ensures Split(token).Some?
    ensures var p := Split(token).value;
      && Join(p.header, p.payload, p.signature) == token
      && DOT !in p.header && DOT !in p.payload && DOT !in p.signature
      && HeaderOf(text, p.header).Some? && HasFields(HeaderOf(text, p.header).value, required)
  {
    hide Count, FindFirst, FindLast;
    SplitRejoins(token);
    var p := Split(token).value;
    JoinDots(p.header, p.payload, p.signature);
    NoneToCount(p.header, DOT);
    NoneToCount(p.signature, DOT);
    if DOT in p.payload { SomeToCount(p.payload, DOT); }
  }

  /** Three parts without dots, joined by dots, the first a header with the required fields. */
  ghost predicate InThreeParts(
    text: JsonText, token: bytes, required: seq<(string, bytes)>, h: bytes, p: bytes, s: bytes)
  {
    && token == Join(h, p, s)
    && DOT !in h && DOT !in p && DOT !in s
    && HeaderOf(text, h).Some? && HasFields(HeaderOf(text, h).value, required)
  }

  /** An input is recognised exactly when it is made up like that; payload and signature may be anything. */
  lemma RealJwtIff(text: JsonText, token: bytes, required: seq<(string, bytes)>)
    ensures IsRealJwt(text, token, required) <==> exists h, p, s :: InThreeParts(text, token, required, h, p, s)
  {
    hide IsRealJwt, HeaderOf, HasFields, Count, Split;
    if IsRealJwt(text, token, required) {
      RealTokensSplit(text, token, required);
      var q := Split(token).value;
      assert InThreeParts(text, token, required, q.header, q.payload, q.signature);
    }
    if h, p, s :| InThreeParts(text, token, required, h, p, s) {
      ThreePartsAreReal(text, token, required, h, p, s);
    }
  }

  lemma ThreePartsAreReal(
    text: JsonText, token: bytes, required: seq<(string, bytes)>, h: bytes, p: bytes, s: bytes)
    requires InThreeParts(text, token, required, h, p, s)
    ensures IsRealJwt(text, token, required)
  {
    hide HeaderOf, HasFields, Count, FindFirst, FindLast;
    JoinDots(h, p, s);
    NoneToCount(h, DOT);
    NoneToCount(p, DOT);
    NoneToCount(s, DOT);
    SplitOfJoin(h, p, s);
  }

  /**
   The null member is all that parsing adds to a header, and only when it fails: a token that parses
   has exactly the header that its first part decodes to.
   */
  lemma ParsedHeaderIsDecoded(text: JsonText, x: X509, st: TokenState, token: bytes, verify: bool, suffix: bytes)
    ensures
      var (st', failure) := Parse(text, x, st, token, verify, suffix);
      Split(token).Some? && Split(token).value.header != [] ==>
        var decoded := DecodeJson(text, Split(token).value.header);
        && (failure == None ==> decoded == Ok(st'.header))
        && (decoded.Ok? ==> st'.header == decoded.value || st'.header == AfterLookup(decoded.value, "x5c"))
        && (decoded.Err? ==> st'.header == st.header && failure == Some(decoded.error))
  {
    hide DecodeJson, Split, LoadAll, LoadOne, UrlDecode;
  }

  /** A parse from an unsigned state that ends with a signature has checked it, over exactly the signed bytes. */
  lemma SignedMeansVerified(text: JsonText, x: X509, st: TokenState, token: bytes, suffix: bytes)
    requires st.signature == []
    ensures var (st', failure) := Parse(text, x, st, token, true, suffix);
      failure == None && st'.signature != [] ==>
        Verified(x, st'.header, token[..FindLast(token, DOT).value], st'.signature, suffix)
  {
    var (st', failure) := Parse(text, x, st, token, true, suffix);
    if failure == None && st'.signature != [] {
      NoFailureIsVerified(x, st'.header, token[..FindLast(token, DOT).value], st'.signature, suffix);
    }
  }

  /** A token's text and a new token's fields, in literal form. */
  lemma TokenTextIs(text: JsonText, st: TokenState)
    ensures TokenText(text, st) ==
            UrlEncode(text.dump(st.header)) + [46] + UrlEncode(text.dump(st.claims)) + [46] + UrlEncode(st.signature)
    ensures NewToken() ==
            TokenState(Object(map["alg" := Str([82, 83, 50, 53, 54]), "typ" := Str([74, 87, 84])]), Null, [])
  {
    hide UrlEncode;
    assert Ascii("RS256") == [82, 83, 50, 53, 54] && Ascii("JWT") == [74, 87, 84];
  }

  /** The times a created token is given: of issue, and of expiry. All other claims stay. */
  lemma TimesAre(claims: Json, iat: int, exp: int)
    ensures claims.Object? ==>
              var r := WithTimes(claims, iat, exp);
              && r.Ok? && r.value.Object?
              && r.value.fields.Keys == claims.fields.Keys + {"iat", "exp"}
              && r.value.fields["iat"] == Number(iat) && r.value.fields["exp"] == Number(exp)
              && forall k :: k in claims.fields && k != "iat" && k != "exp" ==> r.value.fields[k] == claims.fields[k]
    ensures claims.Null? ==> WithTimes(claims, iat, exp) == Ok(Object(map["iat" := Number(iat), "exp" := Number(exp)]))
    ensures WithTimes(claims, iat, exp).Err? <==> !claims.Object? && !claims.Null?
  {
    assert "iat" != "exp";
  }
}
