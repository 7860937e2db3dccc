/**
 What unprotecting a secret does, spelled out: the names of the fields and of the paddings, the layers
 of sealed text, the derived key, the codes of the stages that fail, and the bits of the policy words.
 */
module RevealLaws {
  import opened Bytes
  import opened Base64
  import opened Json
  import opened Jwt
  import opened ReturnCodes
  import opened Policy
  import opened Secrets
  import Gcm
  import Standard = GcmStandard
  import H = Hkdf
  import Ecc = EccBlob

  // ---------- the padding ----------

  const PADDING_FIELD := "x-az-rsa-padding"

  /** The header has no padding field, an empty one or "rsaes". */
  predicate AsksForRsaes(header: Json) {
    || !header.Object? || PADDING_FIELD !in header.fields
    || header.fields[PADDING_FIELD] == Str([]) || header.fields[PADDING_FIELD] == Str(Ascii("rsaes"))
  }

  predicate AsksForOaep(header: Json) {
    header.Object? && PADDING_FIELD in header.fields && header.fields[PADDING_FIELD] == Str(Ascii("rsaes-oaep"))
  }

  /**
   For every header: which padding the decryption runs with. Any other string is refused with the
   code of an invalid field, anything that is no string with the unknown error.
   */
  lemma PaddingChoice(env: Env, st: TokenState)
    requires env.Lawful()
    ensures AsksForRsaes(st.header) ==> Reveal(env, st) == DecryptSecret(env, st.claims, Rsaes)
    ensures AsksForOaep(st.header) ==> Reveal(env, st) == DecryptSecret(env, st.claims, RsaesOaep)
    ensures !AsksForRsaes(st.header) && !AsksForOaep(st.header) ==>
              Reveal(env, st) == Err(if st.header.fields[PADDING_FIELD].Str? then -0x3005 else -0x7000)
    ensures !(AsksForRsaes(st.header) && AsksForOaep(st.header))
  {
    hide DecryptSecret;
    assert Ascii("rsaes-oaep")[5] == '-' as int && |Ascii("rsaes")| == 5;
  }

  // ---------- the fields ----------

  /** A claim holds the base64 text of these bytes, or some text that decodes to them. */
  ghost predicate FieldHolds(claims: Json, key: string, v: bytes) {
    claims.Object? && key in claims.fields && claims.fields[key].Str? && Decode(claims.fields[key].s) == Ok(v)
  }

  /** The code a claim fails with: missing, no string, or no base64. */
  ghost predicate FieldFails(claims: Json, key: string, code: int) {
    if !claims.Object? then code == -0x3005
    else if key !in claims.fields then code == -0x3004
    else if !claims.fields[key].Str? then code == -0x3005
    else Decode(claims.fields[key].s).Err? && code == -0x7000
  }

  lemma FieldIff(claims: Json, key: string)
    ensures forall v :: Field(claims, key) == Ok(v) <==> FieldHolds(claims, key, v)
    ensures forall code: ErrorCode :: Field(claims, key) == Err(code) <==> FieldFails(claims, key, code)
  {
    hide Decode;
  }

  /** The claims hold every field under its own name. */
  ghost predicate FieldsHold(claims: Json, f: Fields) {
    && FieldHolds(claims, "salt", f.salt)
    && FieldHolds(claims, "dataNonce", f.dataNonce)
    && FieldHolds(claims, "keyNonce", f.keyNonce)
    && FieldHolds(claims, "wrappedAesTransportKey", f.wrappedKey)
    && FieldHolds(claims, "encryptedSecret", f.secret)
    && FieldHolds(claims, "encryptedGuestEcdhPrivateKey", f.ecdhPrivate)
    && FieldHolds(claims, "ephemeralEcdhPublicKey", f.ecdhPublic)
  }

  function FieldNames(): (names: seq<string>)
    ensures |names| == 7
  {
    ["salt", "dataNonce", "keyNonce", "wrappedAesTransportKey", "encryptedSecret",
     "encryptedGuestEcdhPrivateKey", "ephemeralEcdhPublicKey"]
  }

  /** The first field, in this order, that does not hold anything gives the code. */
  ghost predicate FieldsFail(claims: Json, code: int) {
    exists i :: 0 <= i < 7 && FailsAt(claims, i, code)
  }

  ghost predicate FailsAt(claims: Json, i: nat, code: int)
    requires i < 7
  {
    && (forall j :: 0 <= j < i ==> Readable(claims, FieldNames()[j]))
    && FieldFails(claims, FieldNames()[i], code)
  }

  ghost predicate Readable(claims: Json, key: string) {
    exists v :: FieldHolds(claims, key, v)
  }

  lemma FieldsIff(claims: Json, f: Fields)
    ensures ReadFields(claims) == Ok(f) <==> FieldsHold(claims, f)
  {
    hide Field, FieldHolds;
    FieldIff(claims, "salt");
    FieldIff(claims, "dataNonce");
    FieldIff(claims, "keyNonce");
    FieldIff(claims, "wrappedAesTransportKey");
    FieldIff(claims, "encryptedSecret");
    FieldIff(claims, "encryptedGuestEcdhPrivateKey");
    FieldIff(claims, "ephemeralEcdhPublicKey");
  }

  /** The index of the first field that cannot be read, 7 if all can. */
  function FirstUnread(claims: Json, i: nat): (k: nat)
    requires i <= 7
    ensures i <= k <= 7
    ensures forall j :: i <= j < k ==> Field(claims, FieldNames()[j]).Ok?
    ensures k < 7 ==> Field(claims, FieldNames()[k]).Err?
    decreases 7 - i
  {
    if i == 7 || Field(claims, FieldNames()[i]).Err? then i else FirstUnread(claims, i + 1)
  }

  lemma UnreadGivesCode(claims: Json)
    ensures
      var k := FirstUnread(claims, 0);
      if k == 7 then ReadFields(claims).Ok? else ReadFields(claims) == Err(Field(claims, FieldNames()[k]).error)
  {
    hide Field;
    var k := FirstUnread(claims, 0);
    assert forall j :: 0 <= j < k ==> Field(claims, FieldNames()[j]).Ok?;
    assert FieldNames()[0] == "salt" && FieldNames()[1] == "dataNonce" && FieldNames()[2] == "keyNonce";
    assert FieldNames()[3] == "wrappedAesTransportKey" && FieldNames()[4] == "encryptedSecret";
    assert FieldNames()[5] == "encryptedGuestEcdhPrivateKey" && FieldNames()[6] == "ephemeralEcdhPublicKey";
  }

  lemma FieldsFailIff(claims: Json, code: ErrorCode)
    ensures ReadFields(claims) == Err(code) <==> FieldsFail(claims, code)
  {
    hide Field, ReadFields, FieldHolds, FieldFails, FirstUnread, FieldNames, Readable;
    UnreadGivesCode(claims);
    var k := FirstUnread(claims, 0);
    forall j | 0 <= j < 7
      ensures Field(claims, FieldNames()[j]).Ok? <==> Readable(claims, FieldNames()[j])
      ensures Field(claims, FieldNames()[j]) == Err(code) <==> FieldFails(claims, FieldNames()[j], code)
    {
      FieldIff(claims, FieldNames()[j]);
      ReadableIff(claims, FieldNames()[j]);
    }
    if ReadFields(claims) == Err(code) {
      assert FailsAt(claims, k, code);
    }
    if FieldsFail(claims, code) {
      var i :| 0 <= i < 7 && FailsAt(claims, i, code);
      FirstUnreadIs(claims, 0, i);
    }
  }

  lemma {:induction false} FirstUnreadIs(claims: Json, from: nat, i: nat)
    requires from <= i < 7 && Field(claims, FieldNames()[i]).Err?
    requires forall j :: from <= j < i ==> Field(claims, FieldNames()[j]).Ok?
    ensures FirstUnread(claims, from) == i
    decreases i - from
  {
    hide Field, FieldNames;
    if from < i {
      FirstUnreadIs(claims, from + 1, i);
    }
  }

  lemma ReadableIff(claims: Json, key: string)
    ensures Field(claims, key).Ok? <==> Readable(claims, key)
  {
    hide Field, FieldHolds;
    FieldIff(claims, key);
    if Field(claims, key).Ok? {
      assert FieldHolds(claims, key, Field(claims, key).value);
    }
  }

  // ---------- the layers ----------

  /** A layer opens to a nonempty text exactly when it is that text sealed under a key of a size AES has. */
  lemma LayerIff(c: Gcm.Cipher, key: bytes, nonce: bytes, sealed: bytes, p: bytes)
    requires c.Lawful()
    ensures
      OpenLayer(c, key, nonce, sealed) == Ok(p) <==>
      && (|key| == 16 || |key| == 24 || |key| == 32) && p != []
      && Standard.IsSealed(c, key, nonce, p, sealed)
  {
    hide Standard.IsSealed, Gcm.Open;
    Standard.OpenIsStandard(c, key, nonce, sealed, p);
    if Standard.IsSealed(c, key, nonce, p, sealed) {
      SealedIsLonger(c, key, nonce, p, sealed);
    }
  }

  lemma SealedIsLonger(c: Gcm.Cipher, key: bytes, nonce: bytes, p: bytes, sealed: bytes)
    requires Standard.IsSealed(c, key, nonce, p, sealed)
    ensures |sealed| == |p| + 16
  {
  }

  /** Otherwise its code: the key's size, a text too short for a tag, a tag that does not match, an empty text. */
  lemma LayerFails(c: Gcm.Cipher, key: bytes, nonce: bytes, sealed: bytes)
    requires c.Lawful()
    ensures !(|key| == 16 || |key| == 24 || |key| == 32) ==> OpenLayer(c, key, nonce, sealed) == Err(-0x4004)
    ensures (|key| == 16 || |key| == 24 || |key| == 32) ==>
              && (|sealed| < 16 ==> OpenLayer(c, key, nonce, sealed) == Err(-0x7000))
              && (|sealed| >= 16 && (forall p :: !Standard.IsSealed(c, key, nonce, p, sealed)) ==>
                    OpenLayer(c, key, nonce, sealed) == Err(-0x2002))
              && (Standard.IsSealed(c, key, nonce, [], sealed) ==> OpenLayer(c, key, nonce, sealed) == Err(-0x7000))
  {
    hide Standard.IsSealed, Gcm.Open;
    Standard.OpenIsStandard(c, key, nonce, sealed, []);
    if Gcm.Open(c, key, nonce, sealed).Some? {
      Standard.OpenIsStandard(c, key, nonce, sealed, Gcm.Open(c, key, nonce, sealed).value);
    }
    if Standard.IsSealed(c, key, nonce, [], sealed) {
      SealedIsLonger(c, key, nonce, [], sealed);
    }
  }

  // ---------- the decryption ----------

  /** The data key: 32 bytes derived from the hash of the shared secret, with the salt and the system's UUID. */
  ghost predicate IsDataKey(env: Env, shared: bytes, salt: bytes, uuid: bytes, key: bytes) {
    H.IsOkm(env.hash, env.hash.hmac(salt, env.hash.sha256(shared)), uuid, 32, key)
  }

  lemma DataKeyIff(env: Env, shared: bytes, salt: bytes, uuid: bytes, key: bytes)
    requires env.Lawful()
    ensures IsDataKey(env, shared, salt, uuid, key) <==>
            key == H.Hkdf(env.hash, env.hash.sha256(shared), salt, uuid, 32)
  {
    hide H.IsOkm, H.Written, H.Stream;
    var prk := env.hash.hmac(salt, env.hash.sha256(shared));
    H.WrittenIsOkm(env.hash, prk, uuid, 32, key);
    H.WrittenIsStream(env.hash, prk, uuid, 1);
  }

  /** All that has to be so for fields to decrypt to a text, stage by stage. */
  ghost predicate FieldsDecryptTo(
    env: Env, f: Fields, uuid: bytes, padding: Padding, p: bytes,
    transportKey: bytes, privateInfo: bytes, privateKey: bytes, publicKey: bytes, shared: bytes, dataKey: bytes)
    requires env.Lawful()
  {
    && env.rsaDecrypt(f.wrappedKey, padding) == Ok(transportKey)
    && (|transportKey| == 16 || |transportKey| == 24 || |transportKey| == 32)
    && privateInfo != [] && Standard.IsSealed(env.cipher, transportKey, f.keyNonce, privateInfo, f.ecdhPrivate)
    && ImportPrivate(env, privateInfo) == Ok(privateKey)
    && ImportPublic(env, f.ecdhPublic) == Ok(publicKey)
    && env.agree(privateKey, publicKey) == Ok(shared)
    && IsDataKey(env, shared, f.salt, uuid, dataKey)
    && p != [] && Standard.IsSealed(env.cipher, dataKey, f.dataNonce, p, f.secret)
  }

  /**
   The claims of a token decrypt to a text exactly when they hold fields for which every stage gives
   what the next one takes: the transport key unwrapped, the private key unsealed with it, the keys
   imported and agreed, the data key derived, and the secret the text sealed under it.
   */
  ghost predicate DecryptsTo(env: Env, claims: Json, padding: Padding, p: bytes)
    requires env.Lawful()
  {
    env.systemUuid.Some? &&
    exists f: Fields, transportKey, privateInfo, privateKey, publicKey, shared, dataKey ::
      && FieldsHold(claims, f)
      && FieldsDecryptTo(env, f, env.systemUuid.value, padding, p,
                         transportKey, privateInfo, privateKey, publicKey, shared, dataKey)
  }

  lemma DecryptFieldsIff(env: Env, f: Fields, uuid: bytes, padding: Padding, p: bytes)
    requires env.Lawful()
    ensures
      DecryptFields(env, f, uuid, padding) == Ok(p) <==>
      exists transportKey, privateInfo, privateKey, publicKey, shared, dataKey ::
        FieldsDecryptTo(env, f, uuid, padding, p,
                        transportKey, privateInfo, privateKey, publicKey, shared, dataKey)
  {
    if DecryptFields(env, f, uuid, padding) == Ok(p) {
      StagesExist(env, f, uuid, padding, p);
    }
    if transportKey, privateInfo, privateKey, publicKey, shared, dataKey :|
      FieldsDecryptTo(env, f, uuid, padding, p, transportKey, privateInfo, privateKey, publicKey, shared, dataKey)
    {
      StagesSuffice(env, f, uuid, padding, p, transportKey, privateInfo, privateKey, publicKey, shared, dataKey);
    }
  }

  lemma StagesExist(env: Env, f: Fields, uuid: bytes, padding: Padding, p: bytes)
    requires env.Lawful() && DecryptFields(env, f, uuid, padding) == Ok(p)
    ensures exists transportKey, privateInfo, privateKey, publicKey, shared, dataKey ::
      FieldsDecryptTo(env, f, uuid, padding, p, transportKey, privateInfo, privateKey, publicKey, shared, dataKey)
  {
    hide OpenLayer, ImportPrivate, ImportPublic, Standard.IsSealed, IsDataKey, H.Hkdf;
    var transportKey := TransportKey(env, f.wrappedKey, padding).value;
    var privateInfo := OpenLayer(env.cipher, transportKey, f.keyNonce, f.ecdhPrivate).value;
    var privateKey, publicKey := ImportPrivate(env, privateInfo).value, ImportPublic(env, f.ecdhPublic).value;
    var shared := env.agree(privateKey, publicKey).value;
    var dataKey := DataKey(env, f, uuid, privateInfo).value;
    DataKeyIff(env, shared, f.salt, uuid, dataKey);
    LayerIff(env.cipher, transportKey, f.keyNonce, f.ecdhPrivate, privateInfo);
    LayerIff(env.cipher, dataKey, f.dataNonce, f.secret, p);
    assert FieldsDecryptTo(env, f, uuid, padding, p, transportKey, privateInfo, privateKey, publicKey, shared, dataKey);
  }

  lemma StagesSuffice(
    env: Env, f: Fields, uuid: bytes, padding: Padding, p: bytes,
    transportKey: bytes, privateInfo: bytes, privateKey: bytes, publicKey: bytes, shared: bytes, dataKey: bytes)
    requires env.Lawful()
    requires FieldsDecryptTo(
               env, f, uuid, padding, p, transportKey, privateInfo, privateKey, publicKey, shared, dataKey)
    ensures DecryptFields(env, f, uuid, padding) == Ok(p)
  {
    hide OpenLayer, ImportPrivate, ImportPublic, Standard.IsSealed, IsDataKey, H.Hkdf;
    DataKeyIff(env, shared, f.salt, uuid, dataKey);
    LayerIff(env.cipher, transportKey, f.keyNonce, f.ecdhPrivate, privateInfo);
    LayerIff(env.cipher, dataKey, f.dataNonce, f.secret, p);
  }

  lemma DecryptsIff(env: Env, claims: Json, padding: Padding, p: bytes)
    requires env.Lawful()
    ensures DecryptSecret(env, claims, padding) == Ok(p) <==> DecryptsTo(env, claims, padding, p)
  {
    hide ReadFields, DecryptFields, FieldsHold, FieldsDecryptTo;
    if env.systemUuid.Some? {
      var read := ReadFields(claims);
      if read.Ok? {
        FieldsIff(claims, read.value);
        DecryptFieldsIff(env, read.value, env.systemUuid.value, padding, p);
      }
      if DecryptsTo(env, claims, padding, p) {
        var f: Fields, a, b, c, d, e, k :|
          FieldsHold(claims, f) && FieldsDecryptTo(env, f, env.systemUuid.value, padding, p, a, b, c, d, e, k);
        FieldsIff(claims, f);
      }
    }
  }

  // ---------- the codes of the stages ----------

  /** A private key structure of no known form has its own code; one that is imported may be refused. */
  lemma ImportPrivateGives(env: Env, der: bytes, info: Ecc.PrivateInfo)
    requires env.decodePrivate(der) == Ok(info)
    ensures
      var form := if info.publicKey == [] then 4 else info.publicKey[0];
      var wide := info.publicKey != [] && (|info.publicKey| - 1) / 2 > |info.privateKey|;
      && (form != 4 && form != 6 && form != 7 ==> ImportPrivate(env, der) == Err(-0x300A))
      && ((form == 4 || form == 6 || form == 7) && wide ==> ImportPrivate(env, der) == env.strayImport(info))
      && ((form == 4 || form == 6 || form == 7) && !wide ==>
            && Ecc.Imported(info).Ok?
            && ImportPrivate(env, der) ==
               match env.refusesKey(Ecc.Blob(Ecc.Imported(info).value)) {
                 case None => Ok(Ecc.Blob(Ecc.Imported(info).value))
                 case Some(code) => Err(code)
               })
  {
    hide Ecc.Blob, Ecc.X, Ecc.Y, Ecc.LeftPad;
  }

  lemma ImportGives(env: Env, der: bytes)
    ensures env.decodePrivate(der).Err? ==> ImportPrivate(env, der) == Err(env.decodePrivate(der).error)
    ensures env.decodePublic(der).Err? ==> ImportPublic(env, der) == Err(env.decodePublic(der).error)
    ensures env.decodePublic(der).Ok? ==>
              var blob := Ecc.Blob(Ecc.ImportedPublic(env.decodePublic(der).value));
              ImportPublic(env, der) == if env.refusesKey(blob).Some? then Err(env.refusesKey(blob).value) else Ok(blob)
  {
  }

  /** The first stage that fails gives the code of the decryption. */
  lemma StageFails(
    env: Env, f: Fields, uuid: bytes, padding: Padding, code: ErrorCode,
    k: bytes, info: bytes, pri: bytes, pub: bytes, shared: bytes, key: bytes)
    requires env.Lawful()
    ensures
      var unwrapped := env.rsaDecrypt(f.wrappedKey, padding);
      var layer := OpenLayer(env.cipher, k, f.keyNonce, f.ecdhPrivate);
      var r := DecryptFields(env, f, uuid, padding);
      && (unwrapped == Err(code) ==> r == Err(code))
      && (unwrapped == Ok([]) ==> r == Err(-0x7000))
      && (unwrapped == Ok(k) && k != [] ==>
            && (layer == Err(code) ==> r == Err(code))
            && (layer == Ok(info) && ImportPrivate(env, info) == Err(code) ==> r == Err(code))
            && (layer == Ok(info) && ImportPrivate(env, info) == Ok(pri) ==>
                  && (ImportPublic(env, f.ecdhPublic) == Err(code) ==> r == Err(code))
                  && (ImportPublic(env, f.ecdhPublic) == Ok(pub) && env.agree(pri, pub) == Err(code) ==> r == Err(code))
                  && (ImportPublic(env, f.ecdhPublic) == Ok(pub) && env.agree(pri, pub) == Ok(shared)
                      && IsDataKey(env, shared, f.salt, uuid, key) ==>
                        r == OpenLayer(env.cipher, key, f.dataNonce, f.secret))))
  {
    hide OpenLayer, ImportPrivate, ImportPublic, IsDataKey, H.Hkdf;
    DataKeyIff(env, shared, f.salt, uuid, key);
  }

  lemma SecretFails(env: Env, claims: Json, padding: Padding, code: ErrorCode)
    requires env.Lawful()
    ensures env.systemUuid.None? ==> DecryptSecret(env, claims, padding) == Err(-0x7000)
    ensures env.systemUuid.Some? && FieldsFail(claims, code) ==> DecryptSecret(env, claims, padding) == Err(code)
    ensures env.systemUuid.Some? ==> forall f :: FieldsHold(claims, f) ==>
              DecryptSecret(env, claims, padding) == DecryptFields(env, f, env.systemUuid.value, padding)
  {
    hide ReadFields, FieldsHold, FieldsFail, DecryptFields;
    FieldsFailIff(claims, code);
    forall f | FieldsHold(claims, f) ensures ReadFields(claims) == Ok(f) {
      FieldsIff(claims, f);
    }
  }

  // ---------- the reply ----------

  /** The reported bits: 4 for legacy data, 1 for an encrypted secret among the claims, 2 for a signature. */
  ghost predicate Reports(p: Payload, eval: nat) {
    match p
    case LegacyPayload => eval == 4
    case Token(st) =>
      eval == (if st.claims.Object? && "encryptedSecret" in st.claims.fields then 1 else 0)
              + (if st.signature == [] then 0 else 2)
  }

  /** What a policy word allows: bit 0 waives encryption, bit 1 a signature, bit 2 allows legacy data. */
  ghost predicate Allows(policy: nat, eval: nat) {
    if eval == 4 then policy / 4 % 2 == 1
    else (eval % 2 == 1 || policy % 2 == 1) && (eval / 2 % 2 == 1 || policy / 2 % 2 == 1)
  }

  ghost predicate IsCodeOf(f: Failure, code: int) {
    match f
    case JwtFailure(own) => code == own
    case InvalidArgument => code == -0x3005
    case OtherException => code == -0x7000
  }

  /** What is handed back: a length and a copy, nothing for nothing. */
  ghost predicate HandsBack<T(!new)>(env: Env, data: seq<T>, eval: nat, r: Reply<T>) {
    && r.eval == Some(eval)
    && (if |data| == 0 then r.code == 0 && r.output == None
        else r.code == AsLong(|data|, env.longWidth) && r.output == Some(data))
  }

  /**
   The reply to every input under every policy word: what cannot be evaluated has its code and no
   report, what the policy does not allow is refused with the report, legacy data comes back as it
   is, and a token with its plaintext or the code of revealing it.
   */
  lemma ReplyIs(env: Env, input: bytes, policy: nat, r: Reply<byte>)
    requires env.Lawful() && r == Unprotect(env, input, policy)
    ensures
      match Evaluate(env.text, env.x509, input) {
        case Err(f) => IsCodeOf(f, r.code) && r.output == None && r.eval == None
        case Ok(p) =>
          r.eval.Some? && Reports(p, r.eval.value) &&
          if !Allows(policy, r.eval.value) then
            r.code == -0x5000 && r.output == None
          else
            match p {
              case LegacyPayload => HandsBack(env, input, 4, r)
              case Token(st) =>
                match Reveal(env, st) {
                  case Err(code) => r.code == code && r.output == None
                  case Ok(plain) => HandsBack(env, plain, r.eval.value, r)
                }
            }
      }
  {
    hide Evaluate, Reveal, AsLong;
  }

  /** The wide call: the same over the converted input, the plaintext converted back or refused. */
  lemma WideReplyIs(env: Env, input: seq<wchar>, policy: nat, r: Reply<wchar>)
    requires env.Lawful() && r == UnprotectWide(env, input, policy)
    ensures
      var u := env.utf.toUtf8(input);
      if u == [] && input != [] then
        && r.eval == Some(4)
        && (if Allows(policy, 4) then HandsBack(env, input, 4, r) else r.code == -0x5000 && r.output == None)
      else
        match Evaluate(env.text, env.x509, u) {
          case Err(f) => IsCodeOf(f, r.code) && r.output == None && r.eval == None
          case Ok(p) =>
            r.eval.Some? && Reports(p, r.eval.value) &&
            if !Allows(policy, r.eval.value) then
              r.code == -0x5000 && r.output == None
            else
              match p {
                case LegacyPayload => HandsBack(env, input, 4, r)
                case Token(st) =>
                  match Reveal(env, st) {
                    case Err(code) => r.code == code && r.output == None
                    case Ok(plain) =>
                      if env.utf.toWide(plain) == [] && plain != [] then r.code == -0x3005 && r.output == None
                      else HandsBack(env, env.utf.toWide(plain), r.eval.value, r)
                  }
              }
        }
  {
    hide Evaluate, Reveal, AsLong;
  }
}
