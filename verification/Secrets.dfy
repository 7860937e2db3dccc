/** Unprotecting a secret: the two exported calls and the layers of decryption behind them. */
module Secrets {
  import opened Bytes
  import opened Base64
  import opened Json
  import opened Jwt
  import opened ReturnCodes
  import opened Policy
  import Gcm
  import Standard = GcmStandard
  import Aes = AesWrapper
  import H = Hkdf
  import Ecc = EccBlob

  datatype Padding = Rsaes | RsaesOaep

  function PaddingName(p: Padding): bytes {
    match p
    case Rsaes => Ascii("rsaes")
    case RsaesOaep => Ascii("rsaes-oaep")
  }

  function ParsePadding(s: bytes): Result<Padding, Failure> {
    if s == [] || s == PaddingName(Rsaes) then Ok(Rsaes)
    else if s == PaddingName(RsaesOaep) then Ok(RsaesOaep)
    else Err(InvalidArgument)
  }

  /** The header's choice; a value that is not a string throws, an absent one is the default. */
  function PaddingScheme(header: Json): Result<Padding, Failure> {
    match StringAt(header, "x-az-rsa-padding")
    case Ok(s) => ParsePadding(s)
    case Err(_) => if Contains(header, "x-az-rsa-padding") then Err(OtherException) else Ok(Rsaes)
  }

  /**
   Everything outside the library: libraries, TPM, platform. Key handles are the provider blobs they
   were made from; DER decoding gives key structures; what an import does whose copies leave their
   slots is not determined; and long has the platform's width.
   */
  datatype Env = Env(
    text: JsonText,
    x509: X509,
    utf: Utf,
    hash: H.Hash,
    cipher: Gcm.Cipher,
    systemUuid: Option<bytes>,
    rsaDecrypt: (bytes, Padding) -> Result<bytes, ErrorCode>,
    decodePrivate: bytes -> Result<Ecc.PrivateInfo, ErrorCode>,
    decodePublic: bytes -> Result<bytes, ErrorCode>,
    strayImport: Ecc.PrivateInfo -> Result<bytes, ErrorCode>,
    refusesKey: bytes -> Option<ErrorCode>,
    agree: (bytes, bytes) -> Result<bytes, ErrorCode>,
    longWidth: LongWidth)
  {
    ghost predicate Lawful() {
      cipher.Lawful() && hash.Lawful() && utf.Lawful()
    }
  }

  // ---------- key handles ----------

  /** The provider takes a blob or refuses it. */
  function Accept(env: Env, blob: bytes): Result<bytes, ErrorCode> {
    var refusal := env.refusesKey(blob);
    if refusal.Some? then Err(refusal.value) else Ok(blob)
  }

  function ImportPrivate(env: Env, der: bytes): Result<bytes, ErrorCode> {
    var info :- env.decodePrivate(der);
    match Ecc.Imported(info)
    case Err(PublicKeyError) => Err(X509_PRIVATE_KEY)
    case Err(OutsideSlot) => env.strayImport(info)
    case Ok(slots) => Accept(env, Ecc.Blob(slots))
  }

  function ImportPublic(env: Env, der: bytes): Result<bytes, ErrorCode> {
    var publicKey :- env.decodePublic(der);
    Accept(env, Ecc.Blob(Ecc.ImportedPublic(publicKey)))
  }

  // ---------- decrypting the claims ----------

  /** A required base64 claim, with the codes its failures are reported under. */
  function Field(claims: Json, key: string): Result<bytes, ErrorCode> {
    match StringAt(claims, key)
    case Err(OutOfRange) => Err(JWT_MISSING_FIELD)
    case Err(TypeError) => Err(JWT_INVALID_FIELD)
    case Ok(s) => match Decode(s)
      case Err(_) => Err(UNKNOWN_ERROR)
      case Ok(v) => Ok(v)
  }

  datatype Fields = Fields(salt: bytes, dataNonce: bytes, keyNonce: bytes, wrappedKey: bytes,
                           secret: bytes, ecdhPrivate: bytes, ecdhPublic: bytes)

  function ReadFields(claims: Json): Result<Fields, ErrorCode> {
    var salt :- Field(claims, "salt");
    var dataNonce :- Field(claims, "dataNonce");
    var keyNonce :- Field(claims, "keyNonce");
    var wrappedKey :- Field(claims, "wrappedAesTransportKey");
    var secret :- Field(claims, "encryptedSecret");
    var ecdhPrivate :- Field(claims, "encryptedGuestEcdhPrivateKey");
    var ecdhPublic :- Field(claims, "ephemeralEcdhPublicKey");
    Ok(Fields(salt, dataNonce, keyNonce, wrappedKey, secret, ecdhPrivate, ecdhPublic))
  }

  function AesCode(e: Aes.AesError): ErrorCode {
    match e
    case KeyError => BCRYPT_KEY_ERROR
    case EncryptError => CRYPTO_AES_ENCRYPT
    case DecryptError => CRYPTO_AES_DECRYPT
    case NullChainingInfo => UNKNOWN_ERROR
    case LengthError => UNKNOWN_ERROR
  }

  /** One layer of AES-GCM under a key that may be refused; an empty result is a failure. */
  function OpenLayer(c: Gcm.Cipher, key: bytes, nonce: bytes, sealed: bytes): Result<bytes, ErrorCode>
    requires c.Lawful()
  {
    if |key| !in {16, 24, 32} then Err(BCRYPT_KEY_ERROR)
    else if |sealed| < Gcm.TAG then Err(UNKNOWN_ERROR)
    else
      var plain := Gcm.Open(c, key, nonce, sealed);
      if plain.None? then Err(CRYPTO_AES_DECRYPT)
      else if plain.value == [] then Err(UNKNOWN_ERROR)
      else Ok(plain.value)
  }

  /** The TPM unwraps the transport key; an empty one is a failure. */
  function TransportKey(env: Env, wrapped: bytes, padding: Padding): Result<bytes, ErrorCode> {
    var key :- env.rsaDecrypt(wrapped, padding);
    if key == [] then Err(UNKNOWN_ERROR) else Ok(key)
  }

  function DataKey(env: Env, f: Fields, uuid: bytes, privateInfo: bytes): Result<bytes, ErrorCode>
    requires env.Lawful()
  {
    var privateKey :- ImportPrivate(env, privateInfo);
    var publicKey :- ImportPublic(env, f.ecdhPublic);
    var shared :- env.agree(privateKey, publicKey);
    Ok(H.Hkdf(env.hash, env.hash.sha256(shared), f.salt, uuid, 32))
  }

  function DecryptFields(env: Env, f: Fields, uuid: bytes, padding: Padding): Result<bytes, ErrorCode>
    requires env.Lawful()
  {
    var transportKey :- TransportKey(env, f.wrappedKey, padding);
    var privateInfo :- OpenLayer(env.cipher, transportKey, f.keyNonce, f.ecdhPrivate);
    var dataKey :- DataKey(env, f, uuid, privateInfo);
    OpenLayer(env.cipher, dataKey, f.dataNonce, f.secret)
  }

  function DecryptSecret(env: Env, claims: Json, padding: Padding): Result<bytes, ErrorCode>
    requires env.Lawful()
  {
    if env.systemUuid == None then Err(UNKNOWN_ERROR)
    else
      var f :- ReadFields(claims);
      DecryptFields(env, f, env.systemUuid.value, padding)
  }

  lemma OpenedIsNotEmpty(env: Env, claims: Json, padding: Padding)
    requires env.Lawful()
    ensures DecryptSecret(env, claims, padding).Ok? ==>
      && DecryptSecret(env, claims, padding).value != []
      && Contains(claims, "encryptedSecret")
  {
    hide ReadFields, DecryptFields;
    ReadFieldsAreThere(claims);
    var f := ReadFields(claims);
    if f.Ok? && env.systemUuid.Some? {
      DecryptedIsNotEmpty(env, f.value, env.systemUuid.value, padding);
    }
  }

  lemma ReadFieldsAreThere(claims: Json)
    ensures ReadFields(claims).Ok? ==> Contains(claims, "encryptedSecret")
  {
    hide Decode;
    var secret := Field(claims, "encryptedSecret");
  }

  lemma DecryptedIsNotEmpty(env: Env, f: Fields, uuid: bytes, padding: Padding)
    requires env.Lawful()
    ensures DecryptFields(env, f, uuid, padding).Ok? ==> DecryptFields(env, f, uuid, padding).value != []
  {
    hide TransportKey, DataKey, Gcm.Open;
  }

  // ---------- the decryption as the library runs it ----------

  /** One wrapper object serves both layers: it is given a new key and a new chaining info. */
  method OpenWith(aes: Aes.GcmWrapper, key: bytes, nonce: bytes, sealed: bytes) returns (r: Result<bytes, ErrorCode>)
    requires aes.cipher.Lawful()
    modifies aes
    ensures r == OpenLayer(aes.cipher, key, nonce, sealed)
  {
    hide Standard.IsSealed, Gcm.Open;
    var keySet := aes.SetKey(key);
    if keySet.Err? { return Err(AesCode(keySet.error)); }
    var info := aes.SetChainingInfo(nonce);
    var plain := aes.Decrypt(sealed, info);
    if plain.Err? { return Err(AesCode(plain.error)); }
    if plain.value == [] { return Err(UNKNOWN_ERROR); }
    r := Ok(plain.value);
  }

  method RunDecryptSecret(env: Env, claims: Json, padding: Padding) returns (code: int, plaintext: bytes)
    requires env.Lawful()
    ensures code == 0 <==> DecryptSecret(env, claims, padding).Ok?
    ensures code == 0 ==> DecryptSecret(env, claims, padding) == Ok(plaintext)
    ensures code != 0 ==> DecryptSecret(env, claims, padding) == Err(code)
  {
    hide ReadFields, OpenLayer, ImportPrivate, ImportPublic, H.Hkdf;
    plaintext := [];
    if env.systemUuid == None { return UNKNOWN_ERROR, []; }
    var f := ReadFields(claims);
    if f.Err? { return f.error, []; }
    var transportKey := env.rsaDecrypt(f.value.wrappedKey, padding);
    if transportKey.Err? { return transportKey.error, []; }
    if transportKey.value == [] { return UNKNOWN_ERROR, []; }
    var aes := new Aes.GcmWrapper(env.cipher);
    var privateInfo := OpenWith(aes, transportKey.value, f.value.keyNonce, f.value.ecdhPrivate);
    if privateInfo.Err? { return privateInfo.error, []; }
    var privateKey := ImportPrivate(env, privateInfo.value);
    if privateKey.Err? { return privateKey.error, []; }
    var publicKey := ImportPublic(env, f.value.ecdhPublic);
    if publicKey.Err? { return publicKey.error, []; }
    var shared := env.agree(privateKey.value, publicKey.value);
    if shared.Err? { return shared.error, []; }
    var hkdf := new H.BcryptHkdf(env.hash, shared.value);
    var dataKey := hkdf.DeriveKey(f.value.salt, env.systemUuid.value, 32);
    var plain := OpenWith(aes, dataKey, f.value.dataNonce, f.value.secret);
    if plain.Err? { return plain.error, []; }
    return 0, plain.value;
  }

  // ---------- the exported calls ----------

  /** The return value, the buffer behind the output pointer, and the reported policy if one was. */
  datatype Reply<T> = Reply(code: int, output: Option<seq<T>>, eval: Option<nat>)

  /** The length goes back as a long. */
  function Marshal<T>(data: seq<T>, eval: nat, width: LongWidth): Reply<T> {
    if data == [] then Reply(0, None, Some(eval)) else Reply(AsLong(|data|, width), Some(data), Some(eval))
  }

  function Refuse<T>(code: ErrorCode, eval: Option<nat>): Reply<T> {
    Reply(code, None, eval)
  }

  /** The plaintext of a token payload, or the code it is refused with. */
  function Reveal(env: Env, st: TokenState): Result<bytes, ErrorCode>
    requires env.Lawful()
  {
    match PaddingScheme(st.header)
    case Err(f) => Err(CodeOf(f))
    case Ok(padding) => DecryptSecret(env, st.claims, padding)
  }

  function Unprotect(env: Env, input: bytes, policy: nat): Reply<byte>
    requires env.Lawful()
  {
    match Evaluate(env.text, env.x509, input)
    case Err(f) => Refuse(CodeOf(f), None)
    case Ok(payload) =>
      var eval := Features(payload);
      if !Compliant(policy, eval) then Refuse(POLICY_MISMATCH, Some(eval))
      else match payload
        case LegacyPayload => Marshal(input, eval, env.longWidth)
        case Token(st) => match Reveal(env, st)
          case Err(code) => Refuse(code, Some(eval))
          case Ok(plain) => Marshal(plain, eval, env.longWidth)
  }

  function UnprotectWide(env: Env, input: seq<wchar>, policy: nat): Reply<wchar>
    requires env.Lawful()
  {
    match EvaluateWide(env.text, env.x509, env.utf, input)
    case Err(f) => Refuse(CodeOf(f), None)
    case Ok(payload) =>
      var eval := Features(payload);
      if !Compliant(policy, eval) then Refuse(POLICY_MISMATCH, Some(eval))
      else match payload
        case LegacyPayload => Marshal(input, eval, env.longWidth)
        case Token(st) => match Reveal(env, st)
          case Err(code) => Refuse(code, Some(eval))
          case Ok(plain) =>
            var wide := env.utf.toWide(plain);
            if wide == [] && plain != [] then Refuse(JWT_INVALID_FIELD, Some(eval))
            else Marshal(wide, eval, env.longWidth)
  }

  method RunReveal(env: Env, pe: PolicyEvaluator) returns (code: int, plain: bytes)
    requires env.Lawful() && pe.Valid() && !pe.isLegacy
    ensures code == 0 <==> Reveal(env, pe.Payload().state).Ok?
    ensures code == 0 ==> Reveal(env, pe.Payload().state) == Ok(plain)
    ensures code != 0 ==> Reveal(env, pe.Payload().state) == Err(code)
  {
    var padding := PaddingScheme(pe.jwt.header);
    if padding.Err? { return CodeOf(padding.error), []; }
    code, plain := RunDecryptSecret(env, pe.jwt.jwt, padding.value);
  }

  method UnprotectSecret(env: Env, jwt: bytes, policy: nat)
    returns (code: int, output: Option<bytes>, evalPolicy: Option<nat>)
    requires env.Lawful()
    ensures Reply(code, output, evalPolicy) == Unprotect(env, jwt, policy)
  {
    output, evalPolicy := None, None;
    var pe, failure := PolicyEvaluator.FromNarrow(env.text, env.x509, policy, jwt);
    if failure.Some? { return CodeOf(failure.value), None, None; }
    var eval := pe.GetEvaluatedPolicy();
    evalPolicy := Some(eval);
    var compliant := pe.IsCompliant();
    if !compliant { return POLICY_MISMATCH, None, evalPolicy; }
    var data := jwt;
    if !pe.isLegacy {
      code, data := RunReveal(env, pe);
      if code != 0 { return; }
    }
    if data == [] { return 0, None, evalPolicy; }
    return AsLong(|data|, env.longWidth), Some(data), evalPolicy;
  }

  method UnprotectSecretWide(env: Env, jwt: seq<wchar>, policy: nat)
    returns (code: int, output: Option<seq<wchar>>, evalPolicy: Option<nat>)
    requires env.Lawful()
    ensures Reply(code, output, evalPolicy) == UnprotectWide(env, jwt, policy)
  {
    output, evalPolicy := None, None;
    var pe, failure := PolicyEvaluator.FromWide(env.text, env.x509, env.utf, policy, jwt);
    if failure.Some? { return CodeOf(failure.value), None, None; }
    var eval := pe.GetEvaluatedPolicy();
    evalPolicy := Some(eval);
    var compliant := pe.IsCompliant();
    if !compliant { return POLICY_MISMATCH, None, evalPolicy; }
    var data := jwt;
    if !pe.isLegacy {
      var plain;
      code, plain := RunReveal(env, pe);
      if code != 0 { return; }
      data := env.utf.toWide(plain);
      if data == [] && plain != [] { return JWT_INVALID_FIELD, None, evalPolicy; }
    }
    if data == [] { return 0, None, evalPolicy; }
    return AsLong(|data|, env.longWidth), Some(data), evalPolicy;
  }
}
