/**
 When a signed token is accepted, over every token: each check of its certificates and its signature,
 the code of each that fails, and the bits that are reported.
 */
module SignedTokens {
  import opened Bytes
  import opened Base64
  import opened Json
  import opened Jwt
  import opened ReturnCodes
  import opened Policy

  // ---------- certificates and the signature ----------

  ghost predicate Loads(x: X509, cert: Json) {
    cert.Str? && x.load(cert.s) == None
  }

  ghost predicate FailsToLoad(x: X509, cert: Json, f: Failure) {
    if cert.Str? then x.load(cert.s).Some? && f == JwtFailure(x.load(cert.s).value)
    else f == OtherException
  }

  /** A header with a chain of at least one certificate. */
  ghost predicate HasChain(header: Json) {
    && header.Object? && "x5c" in header.fields
    && header.fields["x5c"].Array? && header.fields["x5c"].items != []
  }

  /** All certificates load, the chain is trusted for the suffix and its leaf signed these bytes. */
  ghost predicate Passes(x: X509, header: Json, signed: bytes, signature: bytes, suffix: bytes) {
    header.Object? && "x5c" in header.fields &&
    exists leaf: bytes, intermediates: seq<bytes> ::
      && header.fields["x5c"] == Array([Str(leaf)] + Strs(intermediates))
      && x.load(leaf) == None
      && (forall i :: 0 <= i < |intermediates| ==> x.load(intermediates[i]) == None)
      && x.chainTrusted(intermediates, leaf, suffix) == Ok(true)
      && x.signatureValid(leaf, signed, signature) == Ok(true)
  }

  /** Why they do not: the first failure, in the order intermediates, leaf, chain, signature. */
  ghost predicate FailsWith(x: X509, header: Json, signed: bytes, signature: bytes, suffix: bytes, f: Failure) {
    if !HasChain(header) then
      f == OtherException
    else
      var certs := header.fields["x5c"].items;
      || (exists i ::
            && 1 <= i < |certs|
            && (forall j :: 1 <= j < i ==> Loads(x, certs[j]))
            && FailsToLoad(x, certs[i], f))
      || ((forall j :: 1 <= j < |certs| ==> Loads(x, certs[j])) && FailsToLoad(x, certs[0], f))
      || (exists leaf: bytes, intermediates: seq<bytes> ::
            && certs == [Str(leaf)] + Strs(intermediates)
            && (forall j :: 0 <= j < |certs| ==> Loads(x, certs[j]))
            && ChainOrSignatureFails(x, leaf, intermediates, signed, signature, suffix, f))
  }

  ghost predicate ChainOrSignatureFails(
    x: X509, leaf: bytes, intermediates: seq<bytes>, signed: bytes, signature: bytes, suffix: bytes, f: Failure)
  {
    match x.chainTrusted(intermediates, leaf, suffix)
    case Err(code) => f == JwtFailure(code)
    case Ok(false) => f == JwtFailure(-0x200D)
    case Ok(true) =>
      match x.signatureValid(leaf, signed, signature)
      case Err(code) => f == JwtFailure(code)
      case Ok(false) => f == JwtFailure(-0x200C)
      case Ok(true) => false
  }

  lemma LoadOneIff(x: X509, cert: Json)
    ensures LoadOne(x, cert).Ok? <==> Loads(x, cert)
    ensures LoadOne(x, cert).Ok? ==> cert == Str(LoadOne(x, cert).value)
    ensures LoadOne(x, cert).Err? ==> FailsToLoad(x, cert, LoadOne(x, cert).error)
    ensures forall f :: FailsToLoad(x, cert, f) ==> LoadOne(x, cert) == Err(f)
  {
  }

  /** Loading in order stops at the first that does not load. */
  lemma {:induction false} LoadAllIff(x: X509, certs: seq<Json>)
    ensures
      var r := LoadAll(x, certs);
      && (r.Ok? <==> forall j :: 0 <= j < |certs| ==> Loads(x, certs[j]))
      && (r.Ok? ==> certs == Strs(r.value))
      && (r.Err? ==> exists i ::
            && 0 <= i < |certs|
            && (forall j :: 0 <= j < i ==> Loads(x, certs[j]))
            && FailsToLoad(x, certs[i], r.error))
  {
    hide LoadOne, FailsToLoad, Loads;
    LoadedAreStrings(x, certs);
    if certs != [] {
      LoadOneIff(x, certs[0]);
      LoadAllIff(x, certs[1..]);
      var rest := LoadAll(x, certs[1..]);
      if LoadOne(x, certs[0]).Ok? && rest.Err? {
        var i :|
          && 0 <= i < |certs[1..]|
          && (forall j :: 0 <= j < i ==> Loads(x, certs[1..][j]))
          && FailsToLoad(x, certs[1..][i], rest.error);
        forall j | 0 <= j < i + 1 ensures Loads(x, certs[j]) {
          assert j > 0 ==> certs[j] == certs[1..][j - 1];
        }
        assert certs[1..][i] == certs[i + 1];
      }
      assert forall j :: 1 <= j < |certs| ==> certs[j] == certs[1..][j - 1];
    }
  }

  lemma {:induction false} FirstFailureWins(x: X509, certs: seq<Json>, i: nat, f: Failure)
    requires i < |certs| && (forall j :: 0 <= j < i ==> Loads(x, certs[j])) && FailsToLoad(x, certs[i], f)
    ensures LoadAll(x, certs) == Err(f)
  {
    hide LoadOne, Loads, FailsToLoad;
    LoadOneIff(x, certs[0]);
    if i > 0 {
      forall j | 0 <= j < i - 1 ensures Loads(x, certs[1..][j]) {
        assert certs[1..][j] == certs[j + 1];
      }
      FirstFailureWins(x, certs[1..], i - 1, f);
    }
  }

  lemma StrsAreUnique(a: seq<bytes>, b: seq<bytes>)
    requires Strs(a) == Strs(b)
    ensures a == b
  {
    assert |a| == |b|;
    forall i | 0 <= i < |a| ensures a[i] == b[i] {
      assert Strs(a)[i] == Str(a[i]) && Strs(b)[i] == Str(b[i]);
    }
  }

  /** The chain and the signature, once every certificate is loaded. */
  lemma LoadedOutcome(
    x: X509, header: Json, signed: bytes, signature: bytes, suffix: bytes, leaf: bytes, intermediates: seq<bytes>)
    requires HasChain(header) && header.fields["x5c"].items == [Str(leaf)] + Strs(intermediates)
    requires x.load(leaf) == None && forall i :: 0 <= i < |intermediates| ==> x.load(intermediates[i]) == None
    ensures
      match VerifyFailure(x, header, signed, signature, suffix) {
        case None =>
          x.chainTrusted(intermediates, leaf, suffix) == Ok(true)
          && x.signatureValid(leaf, signed, signature) == Ok(true)
        case Some(f) => ChainOrSignatureFails(x, leaf, intermediates, signed, signature, suffix, f)
      }
    ensures forall f :: ChainOrSignatureFails(x, leaf, intermediates, signed, signature, suffix, f) ==>
      VerifyFailure(x, header, signed, signature, suffix) == Some(f)
  {
    hide LoadAll, LoadOne;
    var certs := header.fields["x5c"].items;
    assert certs[1..] == Strs(intermediates) && certs[0] == Str(leaf);
    forall j | 0 <= j < |certs[1..]| ensures Loads(x, certs[1..][j]) {
      assert certs[1..][j] == Str(intermediates[j]);
    }
    LoadAllIff(x, certs[1..]);
    LoadOneIff(x, certs[0]);
    StrsAreUnique(LoadAll(x, certs[1..]).value, intermediates);
  }

  /** The checks pass exactly when every certificate loads, the chain is trusted and the leaf signed. */
  lemma PassesIff(x: X509, header: Json, signed: bytes, signature: bytes, suffix: bytes)
    ensures VerifyFailure(x, header, signed, signature, suffix) == None <==>
            Passes(x, header, signed, signature, suffix)
  {
    hide LoadAll, LoadOne, FailsToLoad, VerifyFailure;
    if HasChain(header) && AllLoad(x, header) {
      var leaf, intermediates := Taken(x, header);
      LoadedOutcome(x, header, signed, signature, suffix, leaf, intermediates);
    }
    if VerifyFailure(x, header, signed, signature, suffix) == None {
      PassedLoads(x, header, signed, signature, suffix);
    }
    if Passes(x, header, signed, signature, suffix) {
      PassesHasChain(x, header, signed, signature, suffix);
    }
  }

  ghost predicate AllLoad(x: X509, header: Json)
    requires HasChain(header)
  {
    forall j :: 0 <= j < |header.fields["x5c"].items| ==> Loads(x, header.fields["x5c"].items[j])
  }

  lemma Taken(x: X509, header: Json) returns (leaf: bytes, intermediates: seq<bytes>)
    requires HasChain(header) && AllLoad(x, header)
    ensures header.fields["x5c"].items == [Str(leaf)] + Strs(intermediates)
    ensures x.load(leaf) == None && forall i :: 0 <= i < |intermediates| ==> x.load(intermediates[i]) == None
  {
    hide LoadAll, LoadOne;
    var certs := header.fields["x5c"].items;
    assert Loads(x, certs[0]);
    leaf := certs[0].s;
    forall j | 0 <= j < |certs[1..]| ensures Loads(x, certs[1..][j]) {
      assert certs[1..][j] == certs[j + 1];
    }
    LoadAllIff(x, certs[1..]);
    intermediates := LoadAll(x, certs[1..]).value;
    assert certs == [certs[0]] + certs[1..];
    forall i | 0 <= i < |intermediates| ensures x.load(intermediates[i]) == None {
      assert certs[1..][i] == Str(intermediates[i]) && Loads(x, certs[1..][i]);
    }
  }

  lemma PassedLoads(x: X509, header: Json, signed: bytes, signature: bytes, suffix: bytes)
    requires VerifyFailure(x, header, signed, signature, suffix) == None
    ensures HasChain(header) && AllLoad(x, header)
  {
    hide LoadAll, LoadOne, Loads;
    var certs := header.fields["x5c"].items;
    LoadAllIff(x, certs[1..]);
    LoadOneIff(x, certs[0]);
    forall j | 0 <= j < |certs| ensures Loads(x, certs[j]) {
      assert j > 0 ==> certs[j] == certs[1..][j - 1];
    }
  }

  lemma PassesHasChain(x: X509, header: Json, signed: bytes, signature: bytes, suffix: bytes)
    requires Passes(x, header, signed, signature, suffix)
    ensures HasChain(header) && AllLoad(x, header)
    ensures VerifyFailure(x, header, signed, signature, suffix) == None
  {
    hide VerifyFailure, LoadAll, LoadOne;
    var leaf: bytes, intermediates: seq<bytes> :|
      && header.fields["x5c"] == Array([Str(leaf)] + Strs(intermediates))
      && x.load(leaf) == None
      && (forall i :: 0 <= i < |intermediates| ==> x.load(intermediates[i]) == None)
      && x.chainTrusted(intermediates, leaf, suffix) == Ok(true)
      && x.signatureValid(leaf, signed, signature) == Ok(true);
    LoadedOutcome(x, header, signed, signature, suffix, leaf, intermediates);
  }

  /** Otherwise they fail, with the code of the first check that does. */
  lemma FailsIff(x: X509, header: Json, signed: bytes, signature: bytes, suffix: bytes, f: Failure)
    ensures VerifyFailure(x, header, signed, signature, suffix) == Some(f) <==>
            FailsWith(x, header, signed, signature, suffix, f)
  {
    hide LoadAll, LoadOne, FailsToLoad, VerifyFailure, ChainOrSignatureFails, Loads, Passes;
    if !HasChain(header) {
      NoChain(x, header, signed, signature, suffix);
    } else if AllLoad(x, header) {
      AllLoadedFails(x, header, signed, signature, suffix, f);
    } else {
      SomeDoNotLoad(x, header, signed, signature, suffix, f);
    }
  }

  lemma NoChain(x: X509, header: Json, signed: bytes, signature: bytes, suffix: bytes)
    requires !HasChain(header)
    ensures VerifyFailure(x, header, signed, signature, suffix) == Some(OtherException)
  {
  }

  lemma NotBoth(x: X509, cert: Json, f: Failure)
    ensures !(Loads(x, cert) && FailsToLoad(x, cert, f))
  {
  }

  lemma AllLoadedFails(x: X509, header: Json, signed: bytes, signature: bytes, suffix: bytes, f: Failure)
    requires HasChain(header) && AllLoad(x, header)
    ensures VerifyFailure(x, header, signed, signature, suffix) == Some(f) <==>
            FailsWith(x, header, signed, signature, suffix, f)
  {
    hide LoadAll, LoadOne, FailsToLoad, VerifyFailure, ChainOrSignatureFails, Loads;
    var certs := header.fields["x5c"].items;
    var leaf, intermediates := Taken(x, header);
    LoadedOutcome(x, header, signed, signature, suffix, leaf, intermediates);
    forall i | 0 <= i < |certs| ensures !FailsToLoad(x, certs[i], f) {
      NotBoth(x, certs[i], f);
    }
    forall l: bytes, im: seq<bytes> | certs == [Str(l)] + Strs(im) ensures l == leaf && im == intermediates {
      SameChain(l, im, leaf, intermediates);
    }
  }

  lemma SameChain(a: bytes, s: seq<bytes>, b: bytes, t: seq<bytes>)
    requires [Str(a)] + Strs(s) == [Str(b)] + Strs(t)
    ensures a == b && s == t
  {
    assert ([Str(a)] + Strs(s))[0] == Str(a) && ([Str(b)] + Strs(t))[0] == Str(b);
    assert ([Str(a)] + Strs(s))[1..] == Strs(s) && ([Str(b)] + Strs(t))[1..] == Strs(t);
    StrsAreUnique(s, t);
  }

  lemma SomeDoNotLoad(x: X509, header: Json, signed: bytes, signature: bytes, suffix: bytes, f: Failure)
    requires HasChain(header) && !AllLoad(x, header)
    ensures VerifyFailure(x, header, signed, signature, suffix) == Some(f) <==>
            FailsWith(x, header, signed, signature, suffix, f)
  {
    hide LoadAll, LoadOne, FailsToLoad, VerifyFailure, FailsWith, ChainOrSignatureFails, Loads;
    var certs := header.fields["x5c"].items;
    if LoadAll(x, certs[1..]).Err? {
      IntermediateFails(x, header, signed, signature, suffix, f);
    } else {
      LeafFails(x, header, signed, signature, suffix, f);
    }
  }

  lemma IntermediateFails(x: X509, header: Json, signed: bytes, signature: bytes, suffix: bytes, f: Failure)
    requires HasChain(header) && LoadAll(x, header.fields["x5c"].items[1..]).Err?
    ensures VerifyFailure(x, header, signed, signature, suffix) == Some(f) <==>
            FailsWith(x, header, signed, signature, suffix, f)
  {
    hide LoadAll, LoadOne, FailsToLoad, ChainOrSignatureFails, Loads;
    var certs := header.fields["x5c"].items;
    var e := LoadAll(x, certs[1..]).error;
    var k := FirstBad(x, certs);
    NotBoth(x, certs[k], e);
    if i: nat :| 1 <= i < |certs| && (forall j :: 1 <= j < i ==> Loads(x, certs[j])) && FailsToLoad(x, certs[i], f) {
      BadIsFirst(x, certs, i, f);
    }
  }

  lemma FirstBad(x: X509, certs: seq<Json>) returns (k: nat)
    requires certs != [] && LoadAll(x, certs[1..]).Err?
    ensures 1 <= k < |certs| && (forall j :: 1 <= j < k ==> Loads(x, certs[j]))
    ensures FailsToLoad(x, certs[k], LoadAll(x, certs[1..]).error)
  {
    hide LoadAll, LoadOne, FailsToLoad, Loads;
    LoadAllIff(x, certs[1..]);
    var i :|
      && 0 <= i < |certs[1..]|
      && (forall j :: 0 <= j < i ==> Loads(x, certs[1..][j]))
      && FailsToLoad(x, certs[1..][i], LoadAll(x, certs[1..]).error);
    k := i + 1;
    assert certs[1..][i] == certs[k];
    forall j | 1 <= j < k ensures Loads(x, certs[j]) {
      assert certs[1..][j - 1] == certs[j];
    }
  }

  lemma BadIsFirst(x: X509, certs: seq<Json>, i: nat, f: Failure)
    requires 1 <= i < |certs| && (forall j :: 1 <= j < i ==> Loads(x, certs[j])) && FailsToLoad(x, certs[i], f)
    ensures LoadAll(x, certs[1..]) == Err(f)
  {
    hide LoadAll, FailsToLoad, Loads;
    var rest := certs[1..];
    assert rest[i - 1] == certs[i];
    forall j | 0 <= j < i - 1 ensures Loads(x, rest[j]) {
      assert rest[j] == certs[j + 1];
    }
    FirstFailureWins(x, rest, i - 1, f);
  }

  lemma LeafFails(x: X509, header: Json, signed: bytes, signature: bytes, suffix: bytes, f: Failure)
    requires HasChain(header) && !AllLoad(x, header) && LoadAll(x, header.fields["x5c"].items[1..]).Ok?
    ensures VerifyFailure(x, header, signed, signature, suffix) == Some(f) <==>
            FailsWith(x, header, signed, signature, suffix, f)
  {
    hide LoadAll, LoadOne, FailsToLoad, ChainOrSignatureFails, Loads;
    var certs := header.fields["x5c"].items;
    LoadAllIff(x, certs[1..]);
    LoadOneIff(x, certs[0]);
    forall j | 1 <= j < |certs| ensures Loads(x, certs[j]) && !FailsToLoad(x, certs[j], f) {
      assert certs[1..][j - 1] == certs[j];
      NotBoth(x, certs[j], f);
    }
  }

  // ---------- parsing ----------

  /** An encoded part holds this JSON value. */
  ghost predicate Decodes(text: JsonText, part: bytes, j: Json) {
    UrlDecode(part).Ok? && text.parse(UrlDecode(part).value) == Some(j)
  }

  /** Three parts joined by dots, the outer two without one. */
  ghost predicate Dotted(token: bytes, h: bytes, p: bytes, s: bytes) {
    token == h + ['.' as int] + p + ['.' as int] + s && '.' as int !in h && '.' as int !in s
  }

  /** The value a part sets: a part that is empty leaves what was there. */
  ghost predicate Sets(text: JsonText, part: bytes, before: Json, after: Json) {
    if part == [] then after == before else Decodes(text, part, after)
  }

  /** The failure of a part that sets nothing: its own code for a bad character, another for all else. */
  ghost predicate PartFails(text: JsonText, part: bytes, f: Failure) {
    && part != [] && (forall j :: !Decodes(text, part, j))
    && f == JwtFailure(if UrlDecode(part) == Err(InvalidCharacter) then -0x300D else -0x3002)
  }

  lemma DecodeJsonIff(text: JsonText, part: bytes)
    ensures forall j :: DecodeJson(text, part) == Ok(j) <==> Decodes(text, part, j)
    ensures part != [] ==> forall f :: DecodeJson(text, part) == Err(f) <==> PartFails(text, part, f)
  {
    hide UrlDecode;
    if UrlDecode(part).Ok? && text.parse(UrlDecode(part).value).Some? {
      assert Decodes(text, part, text.parse(UrlDecode(part).value).value);
    }
  }

  lemma SplitOfDotted(token: bytes, h: bytes, p: bytes, s: bytes)
    requires Dotted(token, h, p, s)
    ensures Split(token) == Some(Parts(h, p, s, h + ['.' as int] + p))
  {
    hide Split;
    SplitOfJoin(h, p, s);
  }

  /**
   A token with a signature parses, with verification on, to exactly the values its parts hold: if
   they decode and the checks pass over the bytes before the last dot, and only then.
   */
  lemma SignedParseIff(
    text: JsonText, x: X509, st: TokenState, token: bytes, h: bytes, p: bytes, s: bytes,
    after: TokenState, suffix: bytes)
    requires Dotted(token, h, p, s) && s != []
    ensures
      Parse(text, x, st, token, true, suffix) == (after, None) <==>
        && Sets(text, h, st.header, after.header)
        && Sets(text, p, st.claims, after.claims)
        && UrlDecode(s) == Ok(after.signature)
        && Passes(x, after.header, h + ['.' as int] + p, after.signature, suffix)
  {
    hide UrlDecode, DecodeJson, Split, VerifyFailure, Passes, Decodes;
    SplitOfDotted(token, h, p, s);
    DecodeJsonIff(text, h);
    DecodeJsonIff(text, p);
    if UrlDecode(s) == Ok(after.signature) {
      PassesIff(x, after.header, h + ['.' as int] + p, after.signature, suffix);
      PassesContains(x, after.header, h + ['.' as int] + p, after.signature, suffix);
    }
    var header := if h == [] then Ok(st.header) else DecodeJson(text, h);
    if header.Ok? && UrlDecode(s).Ok? {
      PassesIff(x, header.value, h + ['.' as int] + p, UrlDecode(s).value, suffix);
      PassesContains(x, header.value, h + ['.' as int] + p, UrlDecode(s).value, suffix);
    }
  }

  lemma PassesContains(x: X509, header: Json, signed: bytes, signature: bytes, suffix: bytes)
    ensures Passes(x, header, signed, signature, suffix) ==> AfterLookup(header, "x5c") == header
  {
  }

  // What a token that is not accepted throws, part by part.

  lemma HeaderFails(
    text: JsonText, x: X509, st: TokenState, token: bytes, h: bytes, p: bytes, s: bytes, suffix: bytes, f: Failure)
    requires Dotted(token, h, p, s) && PartFails(text, h, f)
    ensures Parse(text, x, st, token, true, suffix) == (st, Some(f))
  {
    hide UrlDecode, DecodeJson, Split, PartFails;
    SplitOfDotted(token, h, p, s);
    DecodeJsonIff(text, h);
    NothingFails(text, f);
  }

  lemma PayloadFails(
    text: JsonText, x: X509, st: TokenState, token: bytes, h: bytes, p: bytes, s: bytes,
    header: Json, suffix: bytes, f: Failure)
    requires Dotted(token, h, p, s) && Sets(text, h, st.header, header) && PartFails(text, p, f)
    ensures Parse(text, x, st, token, true, suffix) == (st.(header := header), Some(f))
  {
    hide UrlDecode, DecodeJson, Split, PartFails, Decodes;
    SplitOfDotted(token, h, p, s);
    DecodeJsonIff(text, h);
    DecodeJsonIff(text, p);
    NothingFails(text, f);
  }

  lemma SignatureFails(
    text: JsonText, x: X509, st: TokenState, token: bytes, h: bytes, p: bytes, s: bytes,
    header: Json, claims: Json, suffix: bytes, f: Failure)
    requires Dotted(token, h, p, s) && s != []
    requires Sets(text, h, st.header, header) && Sets(text, p, st.claims, claims)
    ensures
      Parse(text, x, st, token, true, suffix).1 == Some(f) <==>
      match UrlDecode(s)
      case Err(InvalidCharacter) => f == JwtFailure(-0x300D)
      case Err(LengthError) => f == OtherException
      case Ok(sig) => FailsWith(x, header, h + ['.' as int] + p, sig, suffix, f)
  {
    hide UrlDecode, DecodeJson, Split, VerifyFailure, FailsWith, Decodes;
    SplitOfDotted(token, h, p, s);
    DecodeJsonIff(text, h);
    DecodeJsonIff(text, p);
    if UrlDecode(s).Ok? {
      FailsIff(x, header, h + ['.' as int] + p, UrlDecode(s).value, suffix, f);
    }
  }

  lemma NothingFails(text: JsonText, f: Failure)
    ensures !PartFails(text, [], f)
  {
  }

  lemma SplitsIff(token: bytes)
    ensures Split(token).Some? <==> exists h, p, s :: Dotted(token, h, p, s)
  {
    hide Split;
    SplitRejoins(token);
    if Split(token).Some? {
      var q := Split(token).value;
      assert Dotted(token, q.header, q.payload, q.signature);
    }
    if h, p, s :| Dotted(token, h, p, s) {
      SplitOfDotted(token, h, p, s);
    }
  }

  /** A token without two dots throws the general error and sets nothing. */
  lemma UndottedFails(text: JsonText, x: X509, st: TokenState, token: bytes, suffix: bytes)
    requires forall h, p, s :: !Dotted(token, h, p, s)
    ensures Parse(text, x, st, token, true, suffix) == (st, Some(JwtFailure(-0x6000)))
  {
    hide Split;
    SplitsIff(token);
  }

  // ---------- tokens for this purpose ----------

  /** Three parts without dots whose header names its algorithm and this purpose. */
  ghost predicate IsPurposeToken(text: JsonText, input: bytes, h: bytes, p: bytes, s: bytes, header: Json) {
    && input == h + ['.' as int] + p + ['.' as int] + s
    && '.' as int !in h && '.' as int !in p && '.' as int !in s
    && Decodes(text, h, header)
    && header.Object?
    && "alg" in header.fields && header.fields["alg"].Str?
    && "x-az-cvm-purpose" in header.fields
    && header.fields["x-az-cvm-purpose"] == Str(Ascii("secrets-provisioning"))
  }

  lemma HasFieldsIff(header: Json)
    ensures HasFields(header, Required()) <==>
      && header.Object?
      && "alg" in header.fields && header.fields["alg"].Str?
      && "x-az-cvm-purpose" in header.fields
      && header.fields["x-az-cvm-purpose"] == Str(Ascii("secrets-provisioning"))
  {
    hide Ascii;
    assert Required()[0] == ("x-az-cvm-purpose", Ascii("secrets-provisioning"));
  }

  lemma HeaderOfIff(text: JsonText, h: bytes, header: Json)
    ensures HeaderOf(text, h) == Some(header) <==> Decodes(text, h, header)
  {
    hide UrlDecode;
  }

  /** An input is legacy data exactly when it is no such token. */
  lemma LegacyIff(text: JsonText, x: X509, input: bytes)
    ensures
      Evaluate(text, x, input) == Ok(LegacyPayload) <==>
      forall h, p, s, header :: !IsPurposeToken(text, input, h, p, s, header)
  {
    hide IsRealJwt, Parse, HasFields, HeaderOf, Required, Decodes, Ascii;
    RealJwtIff(text, input, Required());
    if IsRealJwt(text, input, Required()) {
      var h, p, s :| InThreeParts(text, input, Required(), h, p, s);
      var header := HeaderOf(text, h).value;
      HasFieldsIff(header);
      HeaderOfIff(text, h, header);
      assert IsPurposeToken(text, input, h, p, s, header);
    }
    if h, p, s, header :| IsPurposeToken(text, input, h, p, s, header) {
      PurposeIsReal(text, input, h, p, s, header);
    }
  }

  lemma PurposeIsReal(text: JsonText, input: bytes, h: bytes, p: bytes, s: bytes, header: Json)
    requires IsPurposeToken(text, input, h, p, s, header)
    ensures IsRealJwt(text, input, Required())
    ensures Dotted(input, h, p, s)
  {
    hide IsRealJwt, HasFields, HeaderOf, Required, Decodes, Ascii;
    HasFieldsIff(header);
    HeaderOfIff(text, h, header);
    assert InThreeParts(text, input, Required(), h, p, s);
    RealJwtIff(text, input, Required());
  }

  /**
   A signed token for this purpose is accepted exactly when its parts decode and every check passes
   for the subjects of the provisioning service; then it is reported as signed, unless the signature
   is empty.
   */
  lemma SignedTokenIff(
    text: JsonText, x: X509, input: bytes, h: bytes, p: bytes, s: bytes, header: Json, after: TokenState)
    requires IsPurposeToken(text, input, h, p, s, header) && h != [] && s != []
    ensures
      Evaluate(text, x, input) == Ok(Token(after)) <==>
        && after.header == header
        && Sets(text, p, Null, after.claims)
        && UrlDecode(s) == Ok(after.signature)
        && Passes(x, header, h + ['.' as int] + p, after.signature, Ascii(".SecureCPSProvisioning.cloudapp.net"))
    ensures Features(Token(after)) / 2 % 2 == 1 <==> after.signature != []
  {
    hide IsRealJwt, Parse, UrlDecode, Passes, Decodes, Ascii;
    PurposeIsReal(text, input, h, p, s, header);
    SignedParseIff(text, x, NewToken(), input, h, p, s, after, SubjectSuffix());
    OneHeader(text, h, header, after.header);
    assert h != [];
  }

  lemma OneHeader(text: JsonText, h: bytes, a: Json, b: Json)
    ensures Decodes(text, h, a) && Decodes(text, h, b) ==> a == b
  {
  }

  /** A token without a signature is accepted when its parts decode; it is not reported as signed. */
  lemma UnsignedTokenIff(
    text: JsonText, x: X509, input: bytes, h: bytes, p: bytes, header: Json, after: TokenState)
    requires IsPurposeToken(text, input, h, p, [], header) && h != []
    ensures
      Evaluate(text, x, input) == Ok(Token(after)) <==>
      after.header == header && Sets(text, p, Null, after.claims) && after.signature == []
  {
    hide IsRealJwt, DecodeJson, Decodes, Ascii, Split;
    PurposeIsReal(text, input, h, p, [], header);
    SplitOfDotted(input, h, p, []);
    DecodeJsonIff(text, h);
    DecodeJsonIff(text, p);
    OneHeader(text, h, header, after.header);
  }
}
