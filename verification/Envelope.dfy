/** The producer of sealed secrets, and the round trip through it and the unprotect call. */
module Envelope {
  import opened Bytes
  import opened Base64
  import opened Base64Laws
  import opened Json
  import opened Jwt
  import opened ReturnCodes
  import opened Policy
  import opened Secrets
  import Gcm
  import Aes = AesWrapper
  import H = Hkdf
  import Ecc = EccBlob
  import opened RevealLaws
  import Standard = GcmStandard

  /** What the producer reaches outside the library besides the consumer's environment: DER and RSA. */
  datatype Outside = Outside(
    encodePrivate: Ecc.PrivateInfo -> bytes,
    encodePublic: bytes -> bytes,
    rsaEncrypt: (bytes, Padding) -> Result<bytes, ErrorCode>)

  /** The random values, the provider blobs of the two generated keys and the clock readings of one run. */
  datatype Run = Run(salt: bytes, dataNonce: bytes, wrappingKey: bytes, wrappingNonce: bytes,
                     privateKey: bytes, publicKey: bytes, now: int, later: int)
  {
    predicate WellFormed() {
      && |salt| == 32 && |dataNonce| == 12 && |wrappingKey| == 32 && |wrappingNonce| == 12
      && IsPrivateKey(privateKey) && IsPublicKey(publicKey)
    }
  }

  /** A private key pair as the provider exports it. */
  predicate IsPrivateKey(blob: bytes) {
    Ecc.ReadPrivate(blob).Some? && Ecc.ReadPrivate(blob).value.magic == Ecc.PRIVATE_MAGIC
  }

  predicate IsPublicKey(blob: bytes) {
    Ecc.ReadPublic(blob).Some? && Ecc.ReadPublic(blob).value.magic == Ecc.PUBLIC_MAGIC
  }

  /** The key structure of a private blob, in DER. */
  function ExportPrivate(out: Outside, blob: bytes): bytes
    requires IsPrivateKey(blob)
  {
    out.encodePrivate(Ecc.ExportedPrivate(Ecc.ReadPrivate(blob).value))
  }

  function ExportPublic(out: Outside, blob: bytes): bytes
    requires IsPublicKey(blob)
  {
    out.encodePublic(Ecc.ExportedPublic(Ecc.ReadPublic(blob).value))
  }

  function Header(padding: Padding): Json {
    Object(map["alg" := Str(Ascii("RS256")), "typ" := Str(Ascii("JWT")),
               PURPOSE := Str(Ascii("secrets-provisioning")),
               "x-az-rsa-padding" := Str(PaddingName(padding))])
  }

  function Text64(v: bytes): Json {
    Str(Encode(v))
  }

  function Payload(f: Fields): Json {
    Object(map["salt" := Text64(f.salt),
               "dataNonce" := Text64(f.dataNonce),
               "keyNonce" := Text64(f.keyNonce),
               "wrappedAesTransportKey" := Text64(f.wrappedKey),
               "encryptedSecret" := Text64(f.secret),
               "encryptedGuestEcdhPrivateKey" := Text64(f.ecdhPrivate),
               "ephemeralEcdhPublicKey" := Text64(f.ecdhPublic)])
  }

  function Stamped(f: Fields, now: int, later: int): Json {
    Object(Payload(f).fields["iat" := Number(now)]["exp" := Number(later + 1800)])
  }

  /** The sealed fields of one run, given the shared secret and the wrapped transport key. */
  function Sealed(env: Env, out: Outside, run: Run, uuid: bytes, shared: bytes, wrapped: bytes, data: bytes): Fields
    requires env.Lawful() && run.WellFormed()
  {
    var dataKey := H.Hkdf(env.hash, env.hash.sha256(shared), run.salt, uuid, 32);
    Fields(run.salt, run.dataNonce, run.wrappingNonce, wrapped,
           Gcm.Seal(env.cipher, dataKey, run.dataNonce, data + [0]),
           Gcm.Seal(env.cipher, run.wrappingKey, run.wrappingNonce, ExportPrivate(out, run.privateKey)),
           ExportPublic(out, run.publicKey))
  }

  /** The token of a run; empty when a step outside fails. */
  function Produce(env: Env, out: Outside, run: Run, data: bytes, padding: Padding): bytes
    requires env.Lawful() && run.WellFormed()
  {
    var shared := env.agree(run.privateKey, run.publicKey);
    var wrapped := out.rsaEncrypt(run.wrappingKey, padding);
    if env.systemUuid == None || shared.Err? || wrapped.Err? || wrapped.value == [] then []
    else
      var f := Sealed(env, out, run, env.systemUuid.value, shared.value, wrapped.value, data);
      TokenText(env.text, TokenState(Header(padding), Stamped(f, run.now, run.later), []))
  }

  lemma StampedPayload(f: Fields, now: int, later: int)
    ensures WithTimes(Payload(f), now, later + 1800) == Ok(Stamped(f, now, later))
  {
  }

  method SealWith(aes: Aes.GcmWrapper, key: bytes, nonce: bytes, plain: bytes) returns (r: bytes)
    requires aes.cipher.Lawful() && |key| == 32
    modifies aes
    ensures r == Gcm.Seal(aes.cipher, key, nonce, plain)
  {
    var keySet := aes.SetKey(key);
    var info := aes.SetChainingInfo(nonce);
    var sealed := aes.Encrypt(plain, info);
    r := sealed.value;
  }

  method EncryptWithPadding(env: Env, out: Outside, run: Run, data: bytes, padding: Padding) returns (token: bytes)
    requires env.Lawful() && run.WellFormed()
    ensures token == Produce(env, out, run, data, padding)
  {
    hide Payload, Header, TokenText, Gcm.Seal, H.Hkdf, Stamped, ExportPrivate, ExportPublic, IsPrivateKey, IsPublicKey;
    var secretData := data + [0];
    if env.systemUuid == None { return []; }
    var infoData := env.systemUuid.value;
    var exportedPublic := ExportPublic(out, run.publicKey);
    var exportedPrivate := ExportPrivate(out, run.privateKey);
    var shared := env.agree(run.privateKey, run.publicKey);
    if shared.Err? { return []; }
    var hkdf := new H.BcryptHkdf(env.hash, shared.value);
    var aesKey := hkdf.DeriveKey(run.salt, infoData, 32);
    var aes := new Aes.GcmWrapper(env.cipher);
    var encryptedSecret := SealWith(aes, aesKey, run.dataNonce, secretData);
    var encryptedPrivate := SealWith(aes, run.wrappingKey, run.wrappingNonce, exportedPrivate);
    var wrapped := out.rsaEncrypt(run.wrappingKey, padding);
    if wrapped.Err? || wrapped.value == [] { return []; }
    var f := Fields(run.salt, run.dataNonce, run.wrappingNonce, wrapped.value,
                    encryptedSecret, encryptedPrivate, exportedPublic);
    token := PrintToken(env, f, run.now, run.later, padding);
  }

  /** The unsigned token of the header and the claims. */
  method PrintToken(env: Env, f: Fields, now: int, later: int, padding: Padding) returns (token: bytes)
    ensures token == TokenText(env.text, TokenState(Header(padding), Stamped(f, now, later), []))
  {
    hide Payload, Header, TokenText, Stamped;
    var jwt := new JsonWebToken(env.text, env.x509);
    jwt.SetHeader(Header(padding));
    jwt.SetPayload(Payload(f));
    StampedPayload(f, now, later);
    var created := jwt.CreateToken(now, later);
    token := created.value;
  }

  // ---------- the round trip ----------

  /**
   The laws the world outside owes one run: DER, RSA and JSON text can be read back, and the provider
   takes back its own keys. That the keys come back from their structures is proved.
   */
  ghost predicate Cooperates(env: Env, out: Outside, run: Run, data: bytes, padding: Padding) {
    && env.Lawful() && run.WellFormed() && env.systemUuid.Some?
    && env.agree(run.privateKey, run.publicKey).Ok?
    && env.refusesKey(run.privateKey) == None && env.refusesKey(run.publicKey) == None
    && DerReadsBack(env, out, run)
    && var wrapped := out.rsaEncrypt(run.wrappingKey, padding);
       && wrapped.Ok? && wrapped.value != []
       && env.rsaDecrypt(wrapped.value, padding) == Ok(run.wrappingKey)
       && env.text.RoundTrips(Header(padding))
       && env.text.RoundTrips(Stamped(FieldsOf(env, out, run, data, padding), run.now, run.later))
  }

  ghost predicate DerReadsBack(env: Env, out: Outside, run: Run)
    requires run.WellFormed()
  {
    var info := Ecc.ExportedPrivate(Ecc.ReadPrivate(run.privateKey).value);
    var publicKey := Ecc.ExportedPublic(Ecc.ReadPublic(run.publicKey).value);
    && out.encodePrivate(info) != []
    && env.decodePrivate(out.encodePrivate(info)) == Ok(info)
    && env.decodePublic(out.encodePublic(publicKey)) == Ok(publicKey)
  }

  /** Exported keys are imported again as the same blobs. */
  lemma KeysComeBack(env: Env, out: Outside, run: Run)
    requires run.WellFormed() && DerReadsBack(env, out, run)
    requires env.refusesKey(run.privateKey) == None && env.refusesKey(run.publicKey) == None
    ensures ImportPrivate(env, ExportPrivate(out, run.privateKey)) == Ok(run.privateKey)
    ensures ImportPublic(env, ExportPublic(out, run.publicKey)) == Ok(run.publicKey)
  {
    hide Ecc.ReadPrivate, Ecc.ReadPublic, Ecc.Imported, Ecc.ImportedPublic;
    hide Ecc.ExportedPrivate, Ecc.ExportedPublic, Ecc.Blob;
    Ecc.ImportUndoesExport(run.privateKey);
    Ecc.PublicImportUndoesExport(run.publicKey);
  }

  function FieldsOf(env: Env, out: Outside, run: Run, data: bytes, padding: Padding): Fields
    requires env.Lawful() && run.WellFormed() && env.systemUuid.Some?
    requires env.agree(run.privateKey, run.publicKey).Ok? && out.rsaEncrypt(run.wrappingKey, padding).Ok?
  {
    Sealed(env, out, run, env.systemUuid.value, env.agree(run.privateKey, run.publicKey).value,
           out.rsaEncrypt(run.wrappingKey, padding).value, data)
  }

  /** The laws can be met together, for every secret and either padding. */
  lemma CooperationIsPossible(data: bytes, padding: Padding) returns (env: Env, out: Outside, run: Run)
    ensures Cooperates(env, out, run, data, padding)
  {
    hide Encode, Header, Stamped, Sealed, Ecc.ReadPrivate, Ecc.ReadPublic, Ecc.ExportedPrivate, Ecc.ExportedPublic;
    var x := X509(_ => None, (_, _, _) => Ok(true), (_, _, _) => Ok(true));
    var zeros := Gcm.Cipher((_, _) => Zeros(Gcm.BLOCK), (_, _) => Zeros(Gcm.BLOCK));
    var hash := H.Hash(_ => Zeros(H.HASH), (_, _) => Zeros(H.HASH));
    var blank := JsonText(_ => None, _ => [0]);
    var privateKey, publicKey := SomeKeys();
    var info := Ecc.ExportedPrivate(Ecc.ReadPrivate(privateKey).value);
    var publicText := Ecc.ExportedPublic(Ecc.ReadPublic(publicKey).value);
    var plain := Env(blank, x, Utf(_ => [], _ => []), hash, zeros, Some([1]), (c, _) => Ok(c),
                     _ => Ok(info), _ => Ok(publicText), _ => Err(UNKNOWN_ERROR), _ => None,
                     (_, _) => Ok([1]), Bits32);
    out := Outside(_ => [1], _ => [1], (k, _) => Ok(k));
    run := Run(Zeros(32), Zeros(12), Zeros(32), Zeros(12), privateKey, publicKey, 0, 0);
    var header, claims := Header(padding), Stamped(FieldsOf(plain, out, run, data, padding), 0, 0);
    var text := JsonText(b => if b == [1] then Some(header) else Some(claims), j => if j == header then [1] else [2]);
    env := plain.(text := text);
    SealedWithoutText(plain, text, out, run, [1], [1], Zeros(32), data);
    assert text.RoundTrips(header) && text.RoundTrips(claims);
  }

  lemma SomeKeys() returns (privateKey: bytes, publicKey: bytes)
    ensures IsPrivateKey(privateKey) && IsPublicKey(publicKey)
  {
    hide Ecc.ReadPrivate, Ecc.ReadPublic, Ecc.Blob;
    var full := Ecc.Slots(Ecc.PRIVATE_MAGIC, Zeros(32), Zeros(32), Zeros(32));
    var half := Ecc.Slots(Ecc.PUBLIC_MAGIC, Zeros(32), Zeros(32), []);
    Ecc.BlobIsRead(full);
    Ecc.BlobIsRead(half);
    return Ecc.Blob(full), Ecc.Blob(half);
  }

  /** Sealing does not depend on how JSON is printed. */
  lemma SealedWithoutText(
    env: Env, text: JsonText, out: Outside, run: Run, uuid: bytes, shared: bytes, wrapped: bytes, data: bytes)
    requires env.Lawful() && run.WellFormed()
    ensures env.(text := text).Lawful()
    ensures Sealed(env.(text := text), out, run, uuid, shared, wrapped, data)
         == Sealed(env, out, run, uuid, shared, wrapped, data)
  {
  }

  lemma HeaderIsRead(padding: Padding)
    ensures HasFields(Header(padding), Required())
    ensures PaddingScheme(Header(padding)) == Ok(padding)
  {
  }

  lemma FieldIsRead(claims: Json, key: string, v: bytes)
    requires Holds(claims, key, v)
    ensures Field(claims, key) == Ok(v)
  {
    DecodeUndoesEncode(v);
  }

  /** Reading the claims back gives the sealed fields. */
  lemma FieldsAreRead(f: Fields, now: int, later: int)
    ensures ReadFields(Stamped(f, now, later)) == Ok(f)
    ensures Contains(Stamped(f, now, later), "encryptedSecret")
  {
    hide Stamped, Field;
    var c := Stamped(f, now, later);
    StampedHolds(f, now, later);
    FieldIsRead(c, "salt", f.salt);
    FieldIsRead(c, "dataNonce", f.dataNonce);
    FieldIsRead(c, "keyNonce", f.keyNonce);
    FieldIsRead(c, "wrappedAesTransportKey", f.wrappedKey);
    FieldIsRead(c, "encryptedSecret", f.secret);
    FieldIsRead(c, "encryptedGuestEcdhPrivateKey", f.ecdhPrivate);
    FieldIsRead(c, "ephemeralEcdhPublicKey", f.ecdhPublic);
  }

  ghost predicate Holds(claims: Json, key: string, v: bytes) {
    Contains(claims, key) && claims.fields[key] == Text64(v)
  }

  lemma StampedHolds(f: Fields, now: int, later: int)
    ensures var c := Stamped(f, now, later);
      && Holds(c, "salt", f.salt) && Holds(c, "dataNonce", f.dataNonce) && Holds(c, "keyNonce", f.keyNonce)
      && Holds(c, "wrappedAesTransportKey", f.wrappedKey) && Holds(c, "encryptedSecret", f.secret)
      && Holds(c, "encryptedGuestEcdhPrivateKey", f.ecdhPrivate)
      && Holds(c, "ephemeralEcdhPublicKey", f.ecdhPublic)
  {
    hide Text64;
    assert "wrappedAesTransportKey"[0] == 'w' && "ephemeralEcdhPublicKey"[0] == 'e';
  }

  /** Both layers open again. */
  lemma SealedFieldsDecrypt(env: Env, out: Outside, run: Run, data: bytes, padding: Padding)
    requires Cooperates(env, out, run, data, padding)
    ensures DecryptFields(env, FieldsOf(env, out, run, data, padding), env.systemUuid.value, padding) == Ok(data + [0])
  {
    hide ImportPrivate, ImportPublic, ExportPrivate, ExportPublic, DerReadsBack, IsPrivateKey, IsPublicKey;
    hide OpenLayer, H.Hkdf, Gcm.Seal;
    CooperatingKeys(env, out, run, data, padding);
    var shared := env.agree(run.privateKey, run.publicKey).value;
    var dataKey := H.Hkdf(env.hash, env.hash.sha256(shared), run.salt, env.systemUuid.value, 32);
    LayerOpens(env.cipher, run.wrappingKey, run.wrappingNonce, ExportPrivate(out, run.privateKey));
    LayerOpens(env.cipher, dataKey, run.dataNonce, data + [0]);
  }

  lemma CooperatingKeys(env: Env, out: Outside, run: Run, data: bytes, padding: Padding)
    requires Cooperates(env, out, run, data, padding)
    ensures ImportPrivate(env, ExportPrivate(out, run.privateKey)) == Ok(run.privateKey)
    ensures ImportPublic(env, ExportPublic(out, run.publicKey)) == Ok(run.publicKey)
    ensures ExportPrivate(out, run.privateKey) != []
  {
    hide ImportPrivate, ImportPublic, FieldsOf, Stamped, Header, Ecc.ReadPrivate, Ecc.ReadPublic;
    hide Ecc.ExportedPrivate, Ecc.ExportedPublic;
    KeysComeBack(env, out, run);
  }

  lemma LayerOpens(c: Gcm.Cipher, key: bytes, nonce: bytes, plain: bytes)
    requires c.Lawful() && |key| == 32 && plain != []
    ensures OpenLayer(c, key, nonce, Gcm.Seal(c, key, nonce, plain)) == Ok(plain)
  {
    Gcm.OpenIffSealed(c, key, nonce, Gcm.Seal(c, key, nonce, plain), plain);
    Gcm.SealedLength(c, key, nonce, plain);
  }

  /** The produced token is recognised, parses and verifies to the state it was printed from. */
  lemma ProducedIsToken(env: Env, out: Outside, run: Run, data: bytes, padding: Padding) returns (st: TokenState)
    requires Cooperates(env, out, run, data, padding)
    ensures st == TokenState(Header(padding), Stamped(FieldsOf(env, out, run, data, padding), run.now, run.later), [])
    ensures Evaluate(env.text, env.x509, Produce(env, out, run, data, padding)) == Ok(Token(st))
    ensures Features(Token(st)) == ENCRYPTED
  {
    hide IsRealJwt, Parse, HasFields, Required, Sealed, Stamped, Header, TokenText;
    var f := FieldsOf(env, out, run, data, padding);
    st := TokenState(Header(padding), Stamped(f, run.now, run.later), []);
    HeaderIsRead(padding);
    CreatedIsReal(env.text, st, Required());
    ParseUnsigned(env.text, env.x509, st, SubjectSuffix());
    FieldsAreRead(f, run.now, run.later);
  }

  lemma ProducedReveals(env: Env, out: Outside, run: Run, data: bytes, padding: Padding, st: TokenState)
    requires Cooperates(env, out, run, data, padding)
    requires st == TokenState(Header(padding), Stamped(FieldsOf(env, out, run, data, padding), run.now, run.later), [])
    ensures Reveal(env, st) == Ok(data + [0])
  {
    hide ReadFields, DecryptFields, Stamped, Header, PaddingScheme;
    HeaderIsRead(padding);
    FieldsAreRead(FieldsOf(env, out, run, data, padding), run.now, run.later);
    SealedFieldsDecrypt(env, out, run, data, padding);
  }

  /**
   For every secret and either padding: unprotecting a produced token gives the secret and its NUL,
   and returns their length as a long.
   */
  lemma RoundTrip(env: Env, out: Outside, run: Run, data: bytes, padding: Padding, policy: nat)
    requires Cooperates(env, out, run, data, padding) && IsSet(policy, ALLOW_UNSIGNED)
    ensures Unprotect(env, Produce(env, out, run, data, padding), policy)
         == Reply(AsLong(|data| + 1, env.longWidth), Some(data + [0]), Some(ENCRYPTED))
  {
    hide Evaluate, Produce, Reveal, Unprotect, Features;
    var st := ProducedIsToken(env, out, run, data, padding);
    ProducedReveals(env, out, run, data, padding, st);
    AnswerFor(env, Produce(env, out, run, data, padding), policy, st, data + [0]);
  }

  /**
   The same through the wide call, for any wide input that converts to the produced token: the
   secret and its NUL converted, or the one error of the wide call when they do not convert.
   */
  lemma WideRoundTrip(
    env: Env, out: Outside, run: Run, data: bytes, padding: Padding, policy: nat, w: seq<wchar>)
    requires Cooperates(env, out, run, data, padding) && IsSet(policy, ALLOW_UNSIGNED)
    requires env.utf.toUtf8(w) == Produce(env, out, run, data, padding)
    ensures
      var wide := env.utf.toWide(data + [0]);
      UnprotectWide(env, w, policy) ==
        if wide == [] then Reply(JWT_INVALID_FIELD, None, Some(ENCRYPTED))
        else Reply(AsLong(|wide|, env.longWidth), Some(wide), Some(ENCRYPTED))
  {
    hide Evaluate, Produce, Reveal, UnprotectWide, Features;
    var st := ProducedIsToken(env, out, run, data, padding);
    ProducedReveals(env, out, run, data, padding, st);
    WideAnswerFor(env, w, policy, st, data + [0]);
  }

  lemma WideAnswerFor(env: Env, w: seq<wchar>, policy: nat, st: TokenState, plain: bytes)
    requires env.Lawful() && plain != [] && IsSet(policy, ALLOW_UNSIGNED)
    requires Evaluate(env.text, env.x509, env.utf.toUtf8(w)) == Ok(Token(st)) && Features(Token(st)) == ENCRYPTED
    requires Reveal(env, st) == Ok(plain)
    ensures
      var wide := env.utf.toWide(plain);
      UnprotectWide(env, w, policy) ==
        if wide == [] then Reply(JWT_INVALID_FIELD, None, Some(ENCRYPTED))
        else Reply(AsLong(|wide|, env.longWidth), Some(wide), Some(ENCRYPTED))
  {
    hide Evaluate, Reveal;
    TokensAreNotEmpty(env.text, env.x509, env.utf.toUtf8(w));
  }

  /** The empty input is no token. */
  lemma TokensAreNotEmpty(text: JsonText, x: X509, input: bytes)
    ensures Evaluate(text, x, input).Ok? && Evaluate(text, x, input).value.Token? ==> input != []
  {
    hide Parse, HasFields, HeaderOf;
  }

  lemma AnswerFor(env: Env, token: bytes, policy: nat, st: TokenState, plain: bytes)
    requires env.Lawful() && plain != [] && IsSet(policy, ALLOW_UNSIGNED)
    requires Evaluate(env.text, env.x509, token) == Ok(Token(st)) && Features(Token(st)) == ENCRYPTED
    requires Reveal(env, st) == Ok(plain)
    ensures Unprotect(env, token, policy) == Reply(AsLong(|plain|, env.longWidth), Some(plain), Some(ENCRYPTED))
  {
    hide Evaluate, Reveal;
  }

  /** Without the option the produced token, which is not signed, is refused. */
  lemma RefusedUnlessUnsignedAllowed(env: Env, out: Outside, run: Run, data: bytes, padding: Padding, policy: nat)
    requires Cooperates(env, out, run, data, padding) && !IsSet(policy, ALLOW_UNSIGNED)
    ensures Unprotect(env, Produce(env, out, run, data, padding), policy)
         == Reply(POLICY_MISMATCH, None, Some(ENCRYPTED))
  {
    hide Evaluate, Produce, Unprotect, Features, Cooperates;
    CooperatesMeans(env, out, run, data, padding);
    var st := ProducedIsToken(env, out, run, data, padding);
    RefusalFor(env, Produce(env, out, run, data, padding), policy, st);
  }

  lemma RefusalFor(env: Env, token: bytes, policy: nat, st: TokenState)
    requires env.Lawful() && !IsSet(policy, ALLOW_UNSIGNED)
    requires Evaluate(env.text, env.x509, token) == Ok(Token(st)) && Features(Token(st)) == ENCRYPTED
    ensures Unprotect(env, token, policy) == Reply(POLICY_MISMATCH, None, Some(ENCRYPTED))
  {
    hide Evaluate, Reveal;
  }

  // ---------- the wide producers ----------

  /** What a C string pointer to these bytes points at; None if there is no NUL to end it. */
  function CString(s: bytes): (r: Option<bytes>)
    ensures r.Some? <==> 0 in s
    ensures r.Some? ==> r.value + [0] <= s && 0 !in r.value
  {
    if s == [] then None
    else if s[0] == 0 then Some([])
    else
      var rest := CString(s[1..]);
      if rest.None? then None else Some([s[0]] + rest.value)
  }

  lemma {:induction false} CStringOf(s: bytes, rest: bytes)
    requires 0 !in s
    ensures CString(s + [0] + rest) == Some(s)
  {
    var t := s + [0] + rest;
    if s != [] {
      assert t[0] == s[0] && s[0] in s;
      assert t[1..] == s[1..] + [0] + rest;
      CStringOf(s[1..], rest);
      assert [s[0]] + s[1..] == s;
    } else {
      assert t[0] == 0;
    }
  }

  lemma CStringEnds(s: bytes, end: nat)
    requires end < |s| && s[end] == 0 && 0 !in s[..end]
    ensures CString(s) == Some(s[..end])
  {
    hide CString;
    CStringOf(s[..end], s[end + 1..]);
    assert s[..end] + [0] + s[end + 1..] == s;
  }

  /** The wide producer's token; None where the converted text has no end and is read beyond. */
  function ProduceWide(env: Env, out: Outside, run: Run, data: seq<wchar>, padding: Padding): Option<bytes>
    requires env.Lawful() && run.WellFormed()
  {
    var narrow := CString(env.utf.toUtf8(data + [0]));
    if narrow.None? then None else Some(Produce(env, out, run, narrow.value, padding))
  }

  method EncryptWideWithPadding(env: Env, out: Outside, run: Run, data: seq<wchar>, padding: Padding)
    returns (token: Option<bytes>)
    requires env.Lawful() && run.WellFormed()
    ensures token == ProduceWide(env, out, run, data, padding)
  {
    hide Produce;
    var utf8Vec := env.utf.toUtf8(data + [0]);
    var end := 0;
    while end < |utf8Vec| && utf8Vec[end] != 0
      invariant 0 <= end <= |utf8Vec| && 0 !in utf8Vec[..end]
    {
      end := end + 1;
    }
    if end == |utf8Vec| {
      assert utf8Vec[..end] == utf8Vec;
      return None;
    }
    CStringEnds(utf8Vec, end);
    var narrow := EncryptWithPadding(env, out, run, utf8Vec[..end], padding);
    return Some(narrow);
  }

  /**
   A wide secret through both wide calls, for any wide form of the token. There is a token exactly
   when the converted secret has a NUL, which it has not when the conversion fails; the secret and
   its NUL come back exactly when converting what stands before the first NUL, and it, gives them.
   */
  lemma WideSecretComesBackIff(
    env: Env, out: Outside, run: Run, data: seq<wchar>, padding: Padding, policy: nat,
    token: Option<bytes>, w: seq<wchar>)
    requires env.Lawful() && run.WellFormed() && IsSet(policy, ALLOW_UNSIGNED)
    requires token == ProduceWide(env, out, run, data, padding)
    ensures token.Some? <==> 0 in env.utf.toUtf8(data + [0])
    ensures env.utf.toUtf8(data + [0]) == [] ==> token.None?
    ensures
      var s := CString(env.utf.toUtf8(data + [0]));
      token.Some? && env.utf.toUtf8(w) == token.value && Cooperates(env, out, run, s.value, padding) ==>
        (UnprotectWide(env, w, policy)
         == Reply(AsLong(|data| + 1, env.longWidth), Some(data + [0]), Some(ENCRYPTED))
         <==> env.utf.toWide(s.value + [0]) == data + [0])
  {
    hide Produce, Cooperates, UnprotectWide, AsLong;
    var s := CString(env.utf.toUtf8(data + [0]));
    if token.Some? && env.utf.toUtf8(w) == token.value && Cooperates(env, out, run, s.value, padding) {
      WideRoundTrip(env, out, run, s.value, padding, policy, w);
    }
  }

  lemma CooperatesMeans(env: Env, out: Outside, run: Run, data: bytes, padding: Padding)
    requires Cooperates(env, out, run, data, padding)
    ensures env.Lawful() && run.WellFormed()
  {
    hide FieldsOf, Stamped, Header, DerReadsBack, IsPrivateKey, IsPublicKey;
  }

  /** With converters that round-trip on a secret that holds no NUL, it always does. */
  lemma WideSecretRoundTrip(
    env: Env, out: Outside, run: Run, data: seq<wchar>, u: bytes, padding: Padding, policy: nat, w: seq<wchar>)
    requires Cooperates(env, out, run, u, padding) && IsSet(policy, ALLOW_UNSIGNED)
    requires env.utf.toUtf8(data + [0]) == u + [0] && 0 !in u && env.utf.toWide(u + [0]) == data + [0]
    requires env.utf.toUtf8(w) == Produce(env, out, run, u, padding)
    ensures ProduceWide(env, out, run, data, padding) == Some(env.utf.toUtf8(w))
    ensures UnprotectWide(env, w, policy)
         == Reply(AsLong(|data| + 1, env.longWidth), Some(data + [0]), Some(ENCRYPTED))
  {
    hide Produce, UnprotectWide, AsLong, Cooperates;
    CooperatesMeans(env, out, run, u, padding);
    CStringOf(u, []);
    assert u + [0] + [] == u + [0];
    WideRoundTrip(env, out, run, u, padding, policy, w);
  }

  // ---------- the token, spelled out ----------

  /** The header of a produced token, with the literal name of the padding. */
  function HeaderText(padding: Padding): Json {
    Object(map["alg" := Str(Ascii("RS256")), "typ" := Str(Ascii("JWT")),
               "x-az-cvm-purpose" := Str(Ascii("secrets-provisioning")),
               "x-az-rsa-padding" := Str(Ascii(if padding == Rsaes then "rsaes" else "rsaes-oaep"))])
  }

  /** Its claims: seven base64 texts, the time of issue and the time half an hour later. */
  function ClaimsText(run: Run, wrapped: bytes, secret: bytes, sealedKey: bytes, publicInfo: bytes): Json {
    Object(map["salt" := Str(Encode(run.salt)),
               "dataNonce" := Str(Encode(run.dataNonce)),
               "keyNonce" := Str(Encode(run.wrappingNonce)),
               "wrappedAesTransportKey" := Str(Encode(wrapped)),
               "encryptedSecret" := Str(Encode(secret)),
               "encryptedGuestEcdhPrivateKey" := Str(Encode(sealedKey)),
               "ephemeralEcdhPublicKey" := Str(Encode(publicInfo)),
               "iat" := Number(run.now),
               "exp" := Number(run.later + 1800)])
  }

  /**
   The producer's token: the secret and its NUL sealed under the derived key, the private key under
   the wrapped one.
   */
  lemma ProducedToken(
    env: Env, out: Outside, run: Run, data: bytes, padding: Padding,
    shared: bytes, wrapped: bytes, dataKey: bytes, secret: bytes, sealedKey: bytes)
    requires env.Lawful() && run.WellFormed() && env.systemUuid.Some?
    requires env.agree(run.privateKey, run.publicKey) == Ok(shared)
    requires out.rsaEncrypt(run.wrappingKey, padding) == Ok(wrapped) && wrapped != []
    requires IsDataKey(env, shared, run.salt, env.systemUuid.value, dataKey)
    requires Standard.IsSealed(env.cipher, dataKey, run.dataNonce, data + [0], secret)
    requires Standard.IsSealed(
               env.cipher, run.wrappingKey, run.wrappingNonce, ExportPrivate(out, run.privateKey), sealedKey)
    ensures
      Produce(env, out, run, data, padding) ==
      UrlEncode(env.text.dump(HeaderText(padding))) + ['.' as int]
      + UrlEncode(env.text.dump(ClaimsText(run, wrapped, secret, sealedKey, ExportPublic(out, run.publicKey))))
      + ['.' as int]
  {
    hide Encode, UrlEncode, Gcm.Seal, IsDataKey, Standard.IsSealed, H.Hkdf, Ascii;
    hide ExportPrivate, ExportPublic, IsPrivateKey, IsPublicKey;
    DataKeyIff(env, shared, run.salt, env.systemUuid.value, dataKey);
    Standard.SealIsStandard(env.cipher, dataKey, run.dataNonce, data + [0], secret);
    Standard.SealIsStandard(
      env.cipher, run.wrappingKey, run.wrappingNonce, ExportPrivate(out, run.privateKey), sealedKey);
    NoSignatureText();
    var f := Sealed(env, out, run, env.systemUuid.value, shared, wrapped, data);
    StampedIsClaims(run, f);
    HeaderIsText(padding);
  }

  lemma NoSignatureText()
    ensures UrlEncode([]) == []
  {
    hide Encode;
    NothingToEncode([]);
  }

  lemma HeaderIsText(padding: Padding)
    ensures Header(padding) == HeaderText(padding)
  {
    hide Ascii;
  }

  lemma StampedIsClaims(run: Run, f: Fields)
    requires f.salt == run.salt && f.dataNonce == run.dataNonce && f.keyNonce == run.wrappingNonce
    ensures Stamped(f, run.now, run.later) == ClaimsText(run, f.wrappedKey, f.secret, f.ecdhPrivate, f.ecdhPublic)
  {
    hide Encode;
  }
}
