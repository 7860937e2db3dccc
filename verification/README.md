# Attestation and sealed secrets: a verified model

A model, in Dafny 4.11, of the hard parts of the confidential-computing guest attestation code:
the sealed-secret envelope, its cryptographic loops and encodings, the binary walkers and key
blobs, the retrying attestation client, and the key-release application's unwrapping. Verify it
with `dafny verify dfyconfig.toml`.

## How the model is built

- **Form.** Code that works step by step is a method with loops and state, proved against a
  specification function; what the repository promises is then proved about that function. The
  stateful objects (the GCM chaining record and wrapper, the HKDF objects, the web token, the policy
  evaluator, the regrouping iterator, the transport, the TPM index) are classes.
- **Uninterpreted.** The block cipher, the field multiplication, SHA-256, HMAC, RSA, key agreement,
  DER import and export, JSON text, the UTF-8 converters, certificate chains and TPM reads are
  function values or nondeterministic methods. Their laws are predicates: lengths
  (`Gcm.Cipher.Lawful`, `Hkdf.Hash.Lawful`), round trips (`Json.JsonText.RoundTrips`), and what one
  run of the envelope needs (`Envelope.Cooperates`, which `Envelope.CooperationIsPossible` shows can be
  met). No commutativity of key agreement is needed,
  because both sides combine the same private and public halves.
- **Platform.** The width of `long` and of pointers are parameters where they matter. Key handles are
  the provider blobs of the Windows build.
- **Limits as parameters.** Retry limits and base delays are parameters, so the results hold for the
  shipped 3 and 5 or 30 seconds and for any other.

| files | what they model |
|---|---|
| `Bytes`, `Bits`, `TransformWidth`, `Base64`, `Base64Laws` | byte strings, Boost's bit regrouper as a streaming object, the base64 codecs and their laws |
| `Gcm`, `GcmStandard`, `AesWrapper`, `Hkdf` | one-shot GCM and HKDF, what the standards say of them bit by bit, the provider as an object with a counter and a running hash, and the loops that drive it |
| `Json`, `ReturnCodes`, `Jwt`, `Policy`, `SignedTokens`, `Secrets`, `RevealLaws`, `SecretsLaws`, `Envelope` | tokens, the checks of signed ones, the policy gate, both unprotect calls stage by stage, the producer and the end-to-end results |
| `Smbios`, `Uuid`, `Hex`, `NvRead`, `Blobs`, `RsaBlob`, `EccBlob` | the firmware table walk and the UUID text, the chunked NV read, the key blobs |
| `Retry`, `Attest`, `Pem`, `Url` | the nested retries, PEM text, host extraction |
| `BatchUnwrap`, `SplitText` | key wrapping, single and batch unwrapping, token splitting |
| `KnownAnswers` | alphabets, test vectors and layouts in literal form |

## Where the code does not do what is expected of it

Each of these is the code's behaviour, stated with its exact condition:

- Unwrapping does not return a key that ends in a zero byte, and a ciphertext that ends in one
  reaches RSA cut short (`BatchUnwrap.UnwrapUndoesWrapIff`, one of each in
  `BatchUnwrap.TrailingZeroIsLost`): the decoder trims trailing zeros.
- Where `long` has 32 bits, as on Windows, an output of 2^31 bytes up to 2^32 is returned with a number
  that is not positive (`SecretsLaws.OutputIffPositive`, legacy data of that length in
  `SecretsLaws.LongLegacyLooksLikeFailure`).
- A token that is no base64url text is not a failure to decrypt, and no reason for another round: it
  ends the process (`Attest.ProcessEndsIff`, any token with a dot in `Attest.DottedTokenEndsProcess`).
- A wide secret that does not convert has no NUL to end it, and the producer reads beyond it
  (`Envelope.WideSecretComesBackIff`).
- Batch and single unwrapping agree entry by entry, but a batch only returns its results if every
  key in them is UTF-8 (`BatchUnwrap.UnwrapKeyBatch`, `BatchUnwrap.PrintableIff`); a batch that fails
  although each entry unwraps alone is `BatchUnwrap.OneKeyCanCostTheBatch`.
- Importing an elliptic-curve key whose coordinates are wider than its scalar goes on after logging
  it, and the copies leave their slots (`EccBlob.CopiesStayIff`, one such key in
  `EccBlob.ShortScalarDoesNotFit`).
- The firmware walk does not check that the structure it finds holds a UUID
  (`Smbios.UuidIsOwnIff`, a table without one in `Smbios.ShortTableHasNoUuid`).
- A TPM that keeps answering reads with no bytes keeps the NV read going for ever
  (`NvRead.NeverOverIff`, one that never gives any in `NvRead.SilentTpmIsReadForEver`).
- PEM text is only undone if separate line feeds follow the header and precede the footer
  (`Pem.StripUndoesPemIff`); bare carriage returns do not do (`Pem.BareReturnsDoNotStrip`).
- A URL without a scheme whose host is "http" or "https" can be read as one with a scheme
  (`Url.AlwaysFoundIff`; for each URL, `Url.HostIsFoundIff`).
- Splitting loses a delimiter at the end, so a token with a fourth, empty part passes as three
  (`SplitText.ThreePiecesIff`, one in `SplitText.EmptyFourthPartIsLost`).
- An HKDF output longer than 255 * 32 bytes is not refused: the counter wraps
  (`Hkdf.BcryptHkdf.Expand`, the first such block in `Hkdf.CounterWrapsAtLimit`).

The library's own documentation (azure-protected-vm-secrets/README.md:63) says that policy 0 allows
unsigned and unencrypted payloads and 3 requires both; the code (azure-protected-vm-secrets/Policy.h:33-38)
has it the other way round, and the model follows the code. It also says that the wide call returns
0 on success (azure-protected-vm-secrets/README.md:85); it returns the length, as the narrow one does.

## Model

| member | source | states |
|---|---|---|
| TransformWidth.Iterator.AtEnd | azure-protected-vm-secrets/JsonWebToken.cpp:98-100 | The end test of the regrouping iterator: it holds exactly when no output digit is left to start, with no bits held back when narrowing; pending bits are untouched. |
| TransformWidth.Iterator.Step | azure-protected-vm-secrets/JsonWebToken.cpp:98-114 | One pass of the iterator's loop keeps the collected bits the first of the supply and the rest pending; it fails only at a bad character or past the end. |
| TransformWidth.Iterator.Fill | azure-protected-vm-secrets/JsonWebToken.cpp:98-114 | One step of the iterator: the digit it yields is the value of the first pending bits, those bits are gone and no others; past the end the missing bits are zeros; it fails exactly at a character outside the alphabet or an input read past its end. |
| TransformWidth.SextetsFromBytes | azure-protected-vm-secrets/JsonWebToken.cpp:97-102 | The narrowing stream equals regrouping the whole bit string of the input, zero-filled to a multiple of six, for every input length. |
| TransformWidth.BytesFromSextets | azure-protected-vm-secrets/JsonWebToken.cpp:111-114 | The widening stream succeeds exactly when no character is outside the alphabet and the length is not 1 modulo 4; it yields the whole bytes of the bit string and drops the bits left over. |
| Base64.EncodeStream | client-library/src/Attestation/AttestationClient/AttestationHelper.cpp:46-53 | The iterator stack computes the bit-string form of encoding. |
| Base64.DecodeStream | azure-protected-vm-secrets/JsonWebToken.cpp:111-114 | The iterator stack computes the bit-string form of decoding, or fails on the same inputs. |
| Base64Laws.EncodeIsRfc4648 | azure-protected-vm-secrets/JsonWebToken.cpp:97-102 | For every byte string the streaming encoder gives the three-byte/four-character groups and the padding of section 4 of RFC 4648. |
| Base64Laws.EncodedLength | azure-protected-vm-secrets/JsonWebToken.cpp:97-102 | The padded length is 4 * ceil(n / 3), the unpadded one shorter by the padding. |
| Base64Laws.DecodeUndoesEncode | client-library/src/Attestation/AttestationClient/AttestationHelper.cpp:20-43 | Decoding recovers every byte string from its padded and from its unpadded standard form. |
| Base64Laws.UrlDecodeUndoesUrlEncode | client-library/src/Attestation/AttestationClient/AttestationHelper.cpp:56-86 | The same for the two url forms (section 5 of RFC 4648). |
| Base64Laws.TrimmingDecodeOfEncoding | cvm-securekey-release-app/AttestationUtil.cpp:48-63 | The trimming decoder returns the bytes without their maximal run of trailing zeros. |
| Base64Laws.TrimmingAgreesIff | cvm-securekey-release-app/AttestationUtil.cpp:48-63 | Trimming and padding-counting decoders agree on an encoding exactly when the bytes are empty or end in a byte other than zero. |
| Base64Laws.EncodedAlphabet | azure-protected-vm-secrets/JsonWebToken.cpp:104-109 | No url form holds a dot, and every character of the standard form is in the alphabet or the padding. |
| KnownAnswers.AlphabetIs | azure-protected-vm-secrets/JsonWebToken.cpp:97-102 | The sixty-four symbols, in order, as literal text. |
| KnownAnswers.Groups | azure-protected-vm-secrets/JsonWebToken.cpp:97-102 | The symbols of one, two and three bytes as explicit quotients and remainders, with literal padding. |
| KnownAnswers.ShortVectors | azure-protected-vm-secrets/JsonWebToken.cpp:97-102 | The vectors of section 10 of RFC 4648 up to three bytes. |
| KnownAnswers.LongVectors | azure-protected-vm-secrets/JsonWebToken.cpp:97-102 | The vectors of section 10 of RFC 4648 beyond three bytes. |
| KnownAnswers.UrlReplaces | azure-protected-vm-secrets/JsonWebToken.cpp:104-126 | The two characters that the url forms replace, either way, and no other. |
| KnownAnswers.DecodesIff | azure-protected-vm-secrets/JsonWebToken.cpp:111-120 | On every text: when the padding-counting decoder succeeds, how many bytes come out, and which error it gives; every padding character counts, wherever it stands. |
| KnownAnswers.DecodedBits | azure-protected-vm-secrets/JsonWebToken.cpp:111-114 | The bytes that come out are the bits of the symbols read in order. |
| Gcm.OpenIffSealed | azure-protected-vm-secrets/Windows/BcryptAesWrapper.cpp:326-425 | Opening gives a plaintext exactly when the input is the sealing of that plaintext under the same key and nonce (sections 7.1 and 7.2 of NIST SP 800-38D). |
| Gcm.GctrTwice | azure-protected-vm-secrets/Windows/BcryptAesWrapper.cpp:228-425 | The keystream is its own inverse for every length, partial blocks included. |
| Gcm.SealedLength | azure-protected-vm-secrets/Windows/BcryptAesWrapper.cpp:311-319 | A sealed text is as long as the plaintext and a tag. |
| GcmStandard.SealIsStandard | azure-protected-vm-secrets/Windows/BcryptAesWrapper.cpp:228-324 | A text is the sealing of a plaintext exactly when each bit differs from the plaintext's where that of the enciphered counter block is set, the counter being n + 1 above the pre-counter block modulo 2^32, and the tag is the chain of products over the padded ciphertext and the length, masked (sections 6 and 7 of NIST SP 800-38D). |
| GcmStandard.OpenIsStandard | azure-protected-vm-secrets/Windows/BcryptAesWrapper.cpp:326-425 | Opening gives a plaintext exactly when the input is sealed text of it in that sense. |
| GcmStandard.FlippedIff | azure-protected-vm-secrets/Windows/BcryptAesWrapper.cpp:271-305 | Exclusive or, bit by bit. |
| GcmStandard.AdvancedIsCounterBlock | azure-protected-vm-secrets/Windows/BcryptAesWrapper.cpp:271-290 | The n-th counter block of the chain as an integer. |
| AesWrapper.ProviderEncrypt | azure-protected-vm-secrets/Windows/BcryptAesWrapper.cpp:271-305 | The stateful provider: one chained or final call takes the counter, the running hash and the data length on from where the last one left them, and rejects a chained call that is not whole blocks. |
| AesWrapper.ProviderDecrypt | azure-protected-vm-secrets/Windows/BcryptAesWrapper.cpp:375-413 | The same for decryption; the final call compares the tag and yields nothing on a mismatch. |
| AesWrapper.GcmWrapper.SetKey | azure-protected-vm-secrets/Windows/BcryptAesWrapper.cpp:188-208 | A key of 16, 24 or 32 bytes is installed; any other is an error that leaves the old key. |
| AesWrapper.GcmWrapper.SetChainingInfo | azure-protected-vm-secrets/Windows/BcryptAesWrapper.cpp:211-226 | Each call gives a fresh record for its nonce. |
| AesWrapper.GcmWrapper.Encrypt | azure-protected-vm-secrets/Windows/BcryptAesWrapper.cpp:228-324 | The chained loop yields the one-shot sealed text, which is the standard's bit by bit, for every length, 0, partial and whole blocks included; every chained call gets exactly one whole block and the final call the rest. |
| AesWrapper.GcmWrapper.EncryptChain | azure-protected-vm-secrets/Windows/BcryptAesWrapper.cpp:269-290 | After the block loop, ciphertext so far, counter block and hash are those of the one-shot form cut at the offset, with at most one block left. |
| AesWrapper.GcmWrapper.Decrypt | azure-protected-vm-secrets/Windows/BcryptAesWrapper.cpp:326-425 | With a fresh record, the chained loop equals one-shot opening on every input: the plaintext the input is the standard's sealed text of, an error if there is none; too short an input is a length error. |
| AesWrapper.GcmWrapper.DecryptRest | azure-protected-vm-secrets/Windows/BcryptAesWrapper.cpp:396-420 | The final call succeeds exactly when the tag is the one the whole ciphertext has, and then completes the plaintext. |
| AesWrapper.EncryptBlock | azure-protected-vm-secrets/Windows/BcryptAesWrapper.cpp:269-290 | One block more of the chain keeps what is done and what is left equal to the one-shot ciphertext. |
| AesWrapper.EncryptRest | azure-protected-vm-secrets/Windows/BcryptAesWrapper.cpp:291-319 | Closing the chain gives the one-shot sealed text. |
| AesWrapper.DecryptBlock | azure-protected-vm-secrets/Windows/BcryptAesWrapper.cpp:372-394 | One block more of the decryption chain keeps the plaintext and the hash of the whole ciphertext. |
| Hkdf.ShorterIsPrefix | azure-protected-vm-secrets/Windows/BcryptHKDF.cpp:133-214 | Of two output lengths up to 255 * 32, the shorter output is a prefix of the longer (section 2.3 of RFC 5869). |
| Hkdf.WrittenIsStream | azure-protected-vm-secrets/Windows/BcryptHKDF.cpp:146-205 | For up to 255 rounds the loop with its one-byte counter writes T(1) \| T(2) \| ... of section 2.3 of RFC 5869. |
| Hkdf.WrittenIsOkm | azure-protected-vm-secrets/Windows/BcryptHKDF.cpp:133-214 | For every size the output is the one whose byte j is byte j % 32 of block j / 32, each block hashed from the one before, the info and a counter from 1. |
| Hkdf.BlockIsT | azure-protected-vm-secrets/Windows/BcryptHKDF.cpp:150-196 | A round with a wrapping counter is T(i) as long as the counter has not wrapped. |
| Hkdf.BcryptHkdf.Expand | azure-protected-vm-secrets/Windows/BcryptHKDF.cpp:133-214 | For every length the loop over the shared buffer returns the first bytes of what its rounds write, a wrapped counter included. |
| Hkdf.CounterWrapsAtLimit | azure-protected-vm-secrets/Windows/BcryptHKDF.cpp:133-214 | Block 256 is hashed with the counter back at 0, behind the 255 blocks of the RFC. |
| Hkdf.BcryptHkdf.DeriveKey | azure-protected-vm-secrets/Windows/BcryptHKDF.cpp:79-82 | Up to 255 * 32 bytes the result is HKDF over the hash of the secret; for every size it is that output, block by block, under the HMAC of the hash with the salt. |
| Hkdf.OsslHkdf.DeriveKey | azure-protected-vm-secrets/Linux/OsslHKDF.cpp:79-101 | The Linux build asks the library for HKDF over the same hash; infos of successive calls on one object accumulate. |
| Hkdf.DeriveOnBoth | azure-protected-vm-secrets/Windows/BcryptHKDF.cpp:79-214 | The two builds derive the same key. |
| Jwt.RealJwtIff | azure-protected-vm-secrets/JsonWebToken.cpp:163-204 | An input is taken for a token exactly when it is three dot-free parts, the first of which decodes to a header with a string "alg" and the required fields. |
| Jwt.SplitRejoins | azure-protected-vm-secrets/JsonWebToken.cpp:265-275 | Whatever splits at the first and the last dot rejoins to the token; the outer parts hold no dot, and the signed portion is everything before the last dot. |
| Jwt.SplitOfJoin | azure-protected-vm-secrets/JsonWebToken.cpp:243-275 | Three parts joined by dots split back into the same parts when the outer two hold no dot. |
| Jwt.JsonWebToken.SetHeader | azure-protected-vm-secrets/JsonWebToken.cpp:221-224 | Replaces the header and nothing else. |
| Jwt.JsonWebToken.SetPayload | azure-protected-vm-secrets/JsonWebToken.cpp:226-229 | Replaces the claims and nothing else. |
| Jwt.JsonWebToken.CreateToken | azure-protected-vm-secrets/JsonWebToken.cpp:236-249 | The token text of the fields after the issue and expiry times are set; claims that are no object fail and stay as they were. |
| Jwt.JsonWebToken.ParseToken | azure-protected-vm-secrets/JsonWebToken.cpp:251-396 | Which fields are set, and what is thrown, on every token, including failures half-way and the null member that looking up a missing x5c leaves in the header. |
| Jwt.ParsedHeaderIsDecoded | azure-protected-vm-secrets/JsonWebToken.cpp:276-330 | A token that parses has exactly the header its first part decodes to; the null member is all that parsing adds, and only when it fails. |
| Jwt.ParseUndoesCreate | azure-protected-vm-secrets/JsonWebToken.cpp:236-319 | Parsing a created token recovers its header and claims, for every header, claims and signature (section 7.1 of RFC 7515). |
| Jwt.ParseUnsigned | azure-protected-vm-secrets/JsonWebToken.cpp:236-396 | A token created without a signature parses, verification on, to exactly the state it was made from. |
| Jwt.CreatedIsReal | azure-protected-vm-secrets/JsonWebToken.cpp:163-204 | A created token is taken for one exactly when its header has the required fields. |
| Jwt.RealTokensSplit | azure-protected-vm-secrets/JsonWebToken.cpp:163-275 | Whatever is taken for a token splits, its header part is the one that was tested, no part holds a dot and the parts rejoin. |
| Jwt.SignedMeansVerified | azure-protected-vm-secrets/JsonWebToken.cpp:320-391 | A parse with verification that ends with a signature has passed the chain check, with the certificates of the header and the expected subject suffix, and the signature check over exactly the bytes before the last dot. |
| Jwt.TokenTextIs | azure-protected-vm-secrets/JsonWebToken.cpp:236-249 | The text of a token and the fields of a new one, literally. |
| Jwt.TimesAre | azure-protected-vm-secrets/JsonWebToken.cpp:240-241 | Which claims a created token is given, and that all others stay. |
| SignedTokens.PassesIff | azure-protected-vm-secrets/JsonWebToken.cpp:328-356 | The checks pass exactly when the header holds a chain whose certificates all load, which is trusted for the suffix and whose leaf signed the bytes. |
| SignedTokens.FailsIff | azure-protected-vm-secrets/JsonWebToken.cpp:328-390 | Otherwise they fail with the code of the first check that does, in the order intermediates, leaf, chain, signature. |
| SignedTokens.SignedParseIff | azure-protected-vm-secrets/JsonWebToken.cpp:251-356 | A token with a signature parses to given values exactly when its parts decode to them and the checks pass over the bytes before the last dot. |
| SignedTokens.HeaderFails | azure-protected-vm-secrets/JsonWebToken.cpp:276-297 | What a header that does not decode throws, and that nothing is set. |
| SignedTokens.PayloadFails | azure-protected-vm-secrets/JsonWebToken.cpp:298-319 | What a payload that does not decode throws, the header being set. |
| SignedTokens.SignatureFails | azure-protected-vm-secrets/JsonWebToken.cpp:320-391 | What a signature that does not decode or does not pass throws. |
| SignedTokens.UndottedFails | azure-protected-vm-secrets/JsonWebToken.cpp:262-270 | A text without two dots throws the general error and sets nothing. |
| SignedTokens.LegacyIff | azure-protected-vm-secrets/Policy.cpp:11-30 | Legacy data is exactly what is not three dot-free parts with a header of this purpose, both fields by their literal names. |
| SignedTokens.SignedTokenIff | azure-protected-vm-secrets/Policy.cpp:11-119 | A signed token is accepted exactly when its parts decode and every check passes for the provisioning service's subjects, and is then reported as signed. |
| SignedTokens.UnsignedTokenIff | azure-protected-vm-secrets/Policy.cpp:11-119 | A token without a signature is accepted exactly when its parts decode. |
| Policy.SignedIsVerified | azure-protected-vm-secrets/Policy.cpp:11-119 | The signed feature is only reported for a token whose chain and signature were verified over the bytes before the last dot. |
| Policy.PolicyEvaluator.FromNarrow | azure-protected-vm-secrets/Policy.cpp:11-30 | The constructor classifies the input, or throws what parsing throws. |
| Policy.PolicyEvaluator.FromWide | azure-protected-vm-secrets/Policy.cpp:32-71 | The same over the converted input; a failed conversion is legacy data. |
| Policy.PolicyEvaluator.GetEvaluatedPolicy | azure-protected-vm-secrets/Policy.cpp:77-119 | The reported bits are those of the classified payload. |
| Policy.AcceptsMoreIff | azure-protected-vm-secrets/Policy.cpp:133-154 | One policy word accepts every payload another accepts exactly when it has all its options: options only waive, each is needed for some payload, and no other bit matters. |
| Secrets.OpenWith | azure-protected-vm-secrets/SecretsProvisioningLibrary.cpp:92-101 | A key and a nonce set on the wrapper, then decryption: the one-shot opening, an empty plaintext counted as failure. |
| Secrets.RunDecryptSecret | azure-protected-vm-secrets/SecretsProvisioningLibrary.cpp:44-197 | The staged decryption, with the code each failing stage returns, 0 meaning success. |
| Secrets.OpenedIsNotEmpty | azure-protected-vm-secrets/SecretsProvisioningLibrary.cpp:67-133 | Success means a nonempty plaintext and an encrypted secret among the claims. |
| Secrets.RunReveal | azure-protected-vm-secrets/SecretsProvisioningLibrary.cpp:36-42 | The padding named in the header, the default without one, chooses the decryption; an unknown name is an error. |
| RevealLaws.PaddingChoice | azure-protected-vm-secrets/CommonTypes.h:13-28 | Which padding the decryption runs with for every header, by the literal names, and the code of every other value. |
| RevealLaws.FieldsIff | azure-protected-vm-secrets/SecretsProvisioningLibrary.cpp:69-75 | The claims are read as fields exactly when each literal name holds base64 text of its bytes. |
| RevealLaws.FieldsFailIff | azure-protected-vm-secrets/SecretsProvisioningLibrary.cpp:69-75 | Otherwise the first name in order that does not gives the code: missing, no string, no base64. |
| RevealLaws.LayerIff | azure-protected-vm-secrets/SecretsProvisioningLibrary.cpp:92-131 | A layer opens to a nonempty text exactly when it is the standard's sealed text of it under a key of an AES size. |
| RevealLaws.LayerFails | azure-protected-vm-secrets/SecretsProvisioningLibrary.cpp:92-131 | The code of each way a layer does not open. |
| RevealLaws.DecryptsIff | azure-protected-vm-secrets/SecretsProvisioningLibrary.cpp:44-134 | The claims decrypt to a text exactly when every stage gives what the next takes: which field each uses, which key and nonce each layer, and the derived key. |
| RevealLaws.StageFails | azure-protected-vm-secrets/SecretsProvisioningLibrary.cpp:77-196 | The code of the first stage that fails. |
| RevealLaws.ImportPrivateGives | azure-protected-vm-secrets/Windows/BcryptECDiffieHellman.cpp:121-152 | What importing a private key structure gives, form byte by form byte. |
| Secrets.UnprotectSecret | azure-protected-vm-secrets/SecretsProvisioningLibrary.cpp:226-276 | Return value, the length cast to the platform's long included, output pointer and reported policy on every input and policy word. |
| Secrets.UnprotectSecretWide | azure-protected-vm-secrets/SecretsProvisioningLibrary.cpp:282-341 | The same for the wide call. |
| RevealLaws.ReplyIs | azure-protected-vm-secrets/SecretsProvisioningLibrary.cpp:226-276 | The reply to every input under every policy word, with the literal bits of report and policy and the literal codes. |
| RevealLaws.WideReplyIs | azure-protected-vm-secrets/SecretsProvisioningLibrary.cpp:282-341 | The same for the wide call. |
| SecretsLaws.OutputIffPositive | azure-protected-vm-secrets/SecretsProvisioningLibrary.cpp:201-276 | The return value is the length of the output as a long: positive exactly when there is an output and its length fits, which is below 2^31 where long has 32 bits; never positive without an output. |
| SecretsLaws.LongLegacyLooksLikeFailure | azure-protected-vm-secrets/SecretsProvisioningLibrary.cpp:201-276 | Where long has 32 bits, allowed legacy data of 2^31 bytes or more comes back with a negative number and the output set. |
| SecretsLaws.WideOutputIffPositive | azure-protected-vm-secrets/SecretsProvisioningLibrary.cpp:201-341 | The same for the wide call. |
| SecretsLaws.PositiveReturnMeans | azure-protected-vm-secrets/SecretsProvisioningLibrary.cpp:226-276 | A positive return, or any output, means allowed legacy data returned as it came, or a token that is encrypted and either verified or allowed to be unsigned, and the output is its plaintext. |
| SecretsLaws.PositiveReturnIff | azure-protected-vm-secrets/SecretsProvisioningLibrary.cpp:226-276 | And exactly those inputs give an output, empty legacy data excepted; a positive return, if the length of the data also fits a long. |
| SecretsLaws.WidePositiveReturnMeans | azure-protected-vm-secrets/SecretsProvisioningLibrary.cpp:282-341 | For the wide call: allowed legacy data as it came, an input that does not convert included, or an accepted token whose plaintext converts to the output. |
| SecretsLaws.ReportedSignedIsVerified | azure-protected-vm-secrets/SecretsProvisioningLibrary.cpp:226-276 | A reported signed bit means a verified signature whatever the call returned. |
| SecretsLaws.RequireAll | azure-protected-vm-secrets/Policy.cpp:133-154 | Under policy 0 a positive return reports encrypted and signed. |
| SecretsLaws.WideSimulatesNarrow | azure-protected-vm-secrets/SecretsProvisioningLibrary.cpp:226-341 | For every wide input that converts, both calls report the same policy and fail alike with the same code, and the wide output is the conversion of the narrow one; only the wide output-conversion error differs. |
| Envelope.EncryptWithPadding | azure-protected-vm-secrets/SecretsProvisioningSample/SecretsProvisioningSample.cpp:98-224 | The producer step by step, one wrapper reconfigured for two layers, gives the specified token, or nothing when a stage fails. |
| Envelope.ProducedToken | azure-protected-vm-secrets/SecretsProvisioningSample/SecretsProvisioningSample.cpp:156-223 | The produced text, literally: header and claims by name, each layer the standard's sealed text under its key and nonce. |
| Envelope.KeysComeBack | azure-protected-vm-secrets/Windows/BcryptECDiffieHellman.cpp:115-676 | Exported keys are imported again as the same provider blobs, given only that DER can be read back. |
| Envelope.FieldsAreRead | azure-protected-vm-secrets/SecretsProvisioningSample/SecretsProvisioningSample.cpp:212-221 | Every claim the producer writes is read back by the consumer as the bytes it holds. |
| Envelope.SealedFieldsDecrypt | azure-protected-vm-secrets/SecretsProvisioningSample/SecretsProvisioningSample.cpp:118-176 | The two sealed layers and the agreed key undo each other, for either padding. |
| Envelope.ProducedIsToken | azure-protected-vm-secrets/SecretsProvisioningSample/SecretsProvisioningSample.cpp:203-223 | What is produced evaluates to a token that is encrypted and unsigned. |
| Envelope.RoundTrip | azure-protected-vm-secrets/SecretsProvisioningSample/SecretsProvisioningSample.cpp:98-224 | For every secret and either padding, unprotecting the produced token with unsigned payloads allowed gives exactly the secret and its NUL, and returns their length as a long. |
| Envelope.WideRoundTrip | azure-protected-vm-secrets/SecretsProvisioningLibrary.cpp:282-341 | For any wide input that converts to the produced token, the wide call returns the secret and its NUL converted, or its one error exactly when they do not convert. |
| Envelope.EncryptWideWithPadding | azure-protected-vm-secrets/SecretsProvisioningSample/SecretsProvisioningSample.cpp:240-245 | The wide producer hands on what stands before the first NUL of the converted secret; without one there is no string to hand on. |
| Envelope.WideSecretComesBackIff | azure-protected-vm-secrets/SecretsProvisioningSample/SecretsProvisioningSample.cpp:240-245 | There is a token exactly when the converted secret has a NUL, which a failed conversion has not; the wide secret and its NUL come back exactly when converting what was handed on gives them. |
| Envelope.WideSecretRoundTrip | azure-protected-vm-secrets/SecretsProvisioningSample/SecretsProvisioningSample.cpp:240-245 | With converters that round-trip, the wide call returns the wide secret and its NUL. |
| Envelope.RefusedUnlessUnsignedAllowed | azure-protected-vm-secrets/SecretsProvisioningLibrary.cpp:235-240 | Without that option the same token is refused for policy, whatever the other bits. |
| Smbios.WalkTable | azure-protected-vm-secrets/System.cpp:77-112 | On every byte table the nested loops end, stay inside it and find what the specification of the walk finds. |
| Smbios.UuidOffset | azure-protected-vm-secrets/System.cpp:114-116 | The place reported is eight behind the structure found; whether sixteen bytes there lie inside the table is whether there is a UUID to read, which nothing checks. |
| Smbios.SkipStructure | azure-protected-vm-secrets/System.cpp:83-110 | A well-formed structure of another type is passed over to its exact end, whatever its strings (section 6.1.3 of DMTF DSP0134). |
| Smbios.WalkStep | azure-protected-vm-secrets/System.cpp:77-112 | One step on any table: where the walk stops, and where it goes on. |
| Smbios.WalkFindsFirst | azure-protected-vm-secrets/System.cpp:77-112 | On a table of well-formed structures the walk stops at the first of type 1, wherever the table lies. |
| Smbios.UuidIsFound | azure-protected-vm-secrets/System.cpp:77-116 | The sixteen bytes reported are the UUID of the first type 1 structure. |
| Smbios.UuidReadOnTable | azure-protected-vm-secrets/System.cpp:77-116 | On every table of well-formed structures, what the sixteen bytes are, whatever they belong to, and when the table is too short for them. |
| Smbios.UuidIsOwnIff | azure-protected-vm-secrets/System.cpp:114-116 | The bytes are the structure's own, whatever its strings and whatever follows, exactly when its formatted area holds the field. |
| Smbios.ShortTableHasNoUuid | azure-protected-vm-secrets/System.cpp:83-116 | A table of one bare header is found and has no UUID to read. |
| Uuid.PrintedField | azure-protected-vm-secrets/System.cpp:130-139 | Printing a number in a zero-filled field of fixed width and lower-casing it gives the digits of its big-endian bytes. |
| Uuid.FormatUuid | azure-protected-vm-secrets/System.cpp:121-145 | The streamed text, lower-cased, has the first three fields byte-reversed and the rest in order; nothing is printed for nothing found. |
| Uuid.OfTextUndoesText | azure-protected-vm-secrets/System.cpp:121-145 | The text determines the UUID. |
| KnownAnswers.UuidLayout | azure-protected-vm-secrets/System.cpp:121-145 | Which byte each pair of digits prints. |
| Uuid.GetSystemUuid | azure-protected-vm-secrets/System.cpp:147-169 | On every firmware table: the lower-case text of the bytes read, none without a table, undefined exactly where they are not inside the table. |
| Uuid.SystemUuidOnTable | azure-protected-vm-secrets/System.cpp:77-169 | On a table of well-formed structures it is the text of the UUID of the first system information structure, which it determines. |
| NvRead.Tss2NvRead | azure-protected-vm-secrets/Tss2Wrapper.cpp:332-391 | However few bytes each call returns, none included, a read that is ever over ends with exactly the content, or at the first call that fails; the calls made are exactly those of its course. |
| NvRead.RequestsAreContiguous | azure-protected-vm-secrets/Tss2Wrapper.cpp:368-387 | Every request starts within what the last one asked for, the first at the beginning. |
| NvRead.RequestIs | azure-protected-vm-secrets/Tss2Wrapper.cpp:368-369 | Each request asks for what is left, but no more than 1024 bytes. |
| NvRead.OffsetIs | azure-protected-vm-secrets/Tss2Wrapper.cpp:385-387 | How far each call gets. |
| NvRead.NonemptyAnswersEnd | azure-protected-vm-secrets/Tss2Wrapper.cpp:368-387 | If every call gives at least a byte, the read is over within as many calls as there are bytes. |
| NvRead.EmptyAnswersRepeat | azure-protected-vm-secrets/Tss2Wrapper.cpp:368-387 | n empty answers make n identical requests and no progress. |
| NvRead.NeverOverIff | azure-protected-vm-secrets/Tss2Wrapper.cpp:368-387 | A read never ends exactly when, from some call on, with nothing failed and something left, every answer is empty. |
| NvRead.SilentTpmIsReadForEver | azure-protected-vm-secrets/Tss2Wrapper.cpp:368-387 | A TPM that never gives a byte keeps the read going for ever. |
| RsaBlob.ReverseInto | azure-protected-vm-secrets/Windows/WincryptX509.cpp:453-472 | A reversing loop writes the field back to front and nothing else. |
| RsaBlob.WriteExponent | azure-protected-vm-secrets/Windows/WincryptX509.cpp:445-448 | The shifting loop writes the exponent most significant byte first. |
| RsaBlob.WriteFields | azure-protected-vm-secrets/Windows/WincryptX509.cpp:443-472 | Exponent, modulus and primes, each back to front, fill the blob behind its header. |
| RsaBlob.ConvertToBcryptKey | azure-protected-vm-secrets/Windows/WincryptX509.cpp:422-472 | The blob built in place is read, by the sizes its own header declares, as exactly the key of the source blob. |
| RsaBlob.ConversionKeepsKey | azure-protected-vm-secrets/Windows/WincryptX509.cpp:422-472 | For every bit length, a reader finds the little-endian integers of the source as big-endian ones; the fields fill the blob without gap or overlap. |
| KnownAnswers.RsaKeyIsKept | azure-protected-vm-secrets/Windows/WincryptX509.cpp:422-472 | A blob put together from exponent, modulus and primes converts to the literal layout of the other kind, and is read as those integers. |
| EccBlob.ImportPkcs8PrivateKey | azure-protected-vm-secrets/Windows/BcryptECDiffieHellman.cpp:115-200 | Of every key structure: the blob holds left-padded coordinates and the scalar in slots of the declared size, or the reason there is none, an unknown form byte or a copy that would leave its slot. |
| EccBlob.CopiesStayIff | azure-protected-vm-secrets/Windows/BcryptECDiffieHellman.cpp:142-181 | With the 32-bit offset of the code and pointers of either width, both coordinate copies stay in their slots exactly when the coordinates are not wider than the scalar; and when they at least stay in the blob, for each width. |
| EccBlob.ShortScalarDoesNotFit | azure-protected-vm-secrets/Windows/BcryptECDiffieHellman.cpp:142-181 | A key whose scalar is a byte shorter than its coordinates: the copies leave their slots, over the header where pointers have 32 bits. |
| EccBlob.ImportSubjectPublicKeyInfo | azure-protected-vm-secrets/Windows/BcryptECDiffieHellman.cpp:246-309 | The same for a public key, whose form byte is not checked. |
| EccBlob.ExportPkcs8PrivateKey | azure-protected-vm-secrets/Windows/BcryptECDiffieHellman.cpp:376-404 | The key structure made from a provider blob holds its three slots. |
| EccBlob.ExportSubjectPublicKeyInfo | azure-protected-vm-secrets/Windows/BcryptECDiffieHellman.cpp:661-676 | The same for a public blob. |
| EccBlob.BlobIsRead | azure-protected-vm-secrets/Windows/BcryptECDiffieHellman.cpp:155-187 | What is written into a blob is found there by a reader that trusts only its header. |
| EccBlob.ReadBlobIsBuilt | azure-protected-vm-secrets/Windows/BcryptECDiffieHellman.cpp:155-187 | Every readable blob is the one built from its slots. |
| EccBlob.ImportUndoesExport | azure-protected-vm-secrets/Windows/BcryptECDiffieHellman.cpp:115-404 | Export, then import, succeeds and restores X, Y and d byte for byte, and the whole blob if it was a private P-256 one. |
| EccBlob.PublicImportUndoesExport | azure-protected-vm-secrets/Windows/BcryptECDiffieHellman.cpp:246-676 | The same for public blobs. |
| EccBlob.ExportUndoesImportIff | azure-protected-vm-secrets/Windows/BcryptECDiffieHellman.cpp:115-404 | For every key structure: it imports, and exporting restores it, exactly when its public key is present, uncompressed and as wide as the scalar. |
| EccBlob.ImportKeepsIntegers | azure-protected-vm-secrets/Windows/BcryptECDiffieHellman.cpp:166-186 | Coordinates shorter than the scalar keep their integers, in disjoint slots. |
| KnownAnswers.PrivateLayout | azure-protected-vm-secrets/Windows/BcryptECDiffieHellman.cpp:155-187 | The blob of a private key field by field, and the structure exported from it. |
| KnownAnswers.PublicLayout | azure-protected-vm-secrets/Windows/BcryptECDiffieHellman.cpp:274-303 | The same for a public key. |
| KnownAnswers.KeyForms | azure-protected-vm-secrets/Windows/BcryptECDiffieHellman.cpp:121-152 | The form bytes there are, and a key without a public part. |
| Retry.Transport.Perform | client-library/src/Attestation/AttestationClient/lib/AttestationLibUtils.cpp:223-235 | The callback appends the chunks of one attempt in order. |
| Retry.SendRequest | client-library/src/Attestation/AttestationClient/lib/AttestationLibUtils.cpp:334-418 | The loop reaches the specified outcome on every stream of attempts, status by status, and makes no more attempts or pauses than that. |
| Retry.InvokeHttpImdsRequest | client-library/src/Attestation/AttestationClient/lib/HttpClient.cpp:32-142 | The same for the metadata client; a POST without a body sends nothing. |
| Retry.InvokeHttpRequest | client-library/src/Attestation/AttestationClient/lib/ImdsClient.cpp:189-290 | The sibling returns what the other one returns, every failure being the empty string. |
| Retry.LastAttempt | client-library/src/Attestation/AttestationClient/lib/AttestationLibUtils.cpp:340-400 | At most the allowed number of retries; every attempt but the last was retryable, and the last was not or the allowance is used up. |
| Retry.OutcomeIff | client-library/src/Attestation/AttestationClient/lib/AttestationLibUtils.cpp:340-400 | The protocol of both services in literal statuses: another attempt follows exactly when retries are left and the status is 408 (404 for metadata), 429 or at least 500; what every other status concludes; and each pause, Retry-After and jitter included. |
| Retry.ShippedPauses | client-library/src/Attestation/AttestationClient/lib/AttestationLibUtils.cpp:33-34 | The pauses of the shipped limits. |
| Retry.SucceedsIff | client-library/src/Attestation/AttestationClient/lib/AttestationLibUtils.cpp:340-400 | Success with a body exactly when a 200 comes within the allowed retries after nothing but those statuses; the body is the chunks of that attempt. |
| Retry.ExceedsIff | client-library/src/Attestation/AttestationClient/lib/AttestationLibUtils.cpp:365-375 | Giving up for too many retries exactly when every allowed attempt has one of those statuses. |
| Retry.OnlyAttemptsMatter | client-library/src/Attestation/AttestationClient/lib/AttestationLibUtils.cpp:340-400 | Later attempts and the bodies of failed ones do not bear on the outcome. |
| Retry.TotalBackoff | client-library/src/Attestation/AttestationClient/lib/AttestationLibUtils.cpp:377-396 | k retries sleep at least base * (2^k - 1) seconds; without Retry-After at most 5 s more each; exactly that for the metadata clients. |
| Attest.Attest | client-library/src/Attestation/AttestationClient/lib/AttestationClientImpl.cpp:159-206 | The round loop: output set exactly on success, to the token and a NUL; the attempts and pauses of all rounds; an exception in a round is the end of the process. |
| Attest.SendAttestationRequest | client-library/src/Attestation/AttestationClient/lib/AttestationClientImpl.cpp:516-542 | A round sends one request, or none when the payload cannot be made. |
| Attest.AttestSucceedsIff | client-library/src/Attestation/AttestationClient/lib/AttestationClientImpl.cpp:159-199 | Success with a token exactly when an allowed round ends in a 200 whose nonempty token decodes and opens to it, after rounds that ended in a 200 whose token is empty or did not open. |
| Attest.AttestedIff | client-library/src/Attestation/AttestationClient/lib/AttestationClientImpl.cpp:159-199 | Every result of attesting in the same terms: which last attempts give which failure, and when. |
| Attest.ProcessEndsIff | client-library/src/Attestation/AttestationClient/lib/AttestationClientImpl.cpp:347-407 | A round ends the process exactly when parsing its response throws, or its token is no base64url text or throws on opening. |
| Attest.DottedTokenEndsProcess | client-library/src/Attestation/AttestationClient/lib/AttestationClientImpl.cpp:347-366 | A token with a dot in it ends the process in the first round. |
| Attest.TokenIsFromLastAttempt | client-library/src/Attestation/AttestationClient/lib/AttestationClientImpl.cpp:159-205 | The token is what the very last attempt's token, decoded, opens to in the last round. |
| Attest.SendsAreBounded | client-library/src/Attestation/AttestationClient/lib/AttestationClientImpl.cpp:163-199 | At most (rounds + 1) * (retries + 1) requests go out. |
| Attest.RoundBackoff | client-library/src/Attestation/AttestationClient/lib/AttestationClientImpl.cpp:182-191 | Between rounds at least 5 * (2^r - 1) seconds; without Retry-After a bound on everything slept. |
| Attest.RoundSleeps | client-library/src/Attestation/AttestationClient/lib/AttestationClientImpl.cpp:187-189 | What is slept between two rounds: 5, 10, 20, ... seconds. |
| Pem.HeaderGoes | client-library/src/Attestation/AttestationClient/lib/TpmCertOperations.cpp:277-277 | Removing the header leaves the body and the footer line whole. |
| Pem.FooterGoes | client-library/src/Attestation/AttestationClient/lib/TpmCertOperations.cpp:278-278 | Removing the footer leaves the body, if a line end is left for it. |
| Pem.StripUndoesPemIff | client-library/src/Attestation/AttestationClient/lib/TpmCertOperations.cpp:206-281 | For every certificate, every breaking of its text into lines and any line ends after it, stripping and decoding returns the certificate exactly when, carriage returns aside, a line feed follows the header line and another precedes the footer line (section 5 of RFC 7468). |
| Pem.StripUndoesWrap | client-library/src/Attestation/AttestationClient/lib/TpmCertOperations.cpp:237-281 | The text made from a certificate strips back to it. |
| Pem.WrapIs | client-library/src/Attestation/AttestationClient/lib/TpmCertOperations.cpp:35-36 | The text in literal form. |
| Pem.BareReturnsDoNotStrip | client-library/src/Attestation/AttestationClient/lib/TpmCertOperations.cpp:206-281 | Text whose lines end in bare carriage returns does not give the certificate back, whichever it is. |
| Pem.ReadAkCertFromTpm | client-library/src/Attestation/AttestationClient/lib/TpmCertOperations.cpp:232-246 | The text read decodes to the certificate in the TPM. |
| Pem.ReplaceAkCert | client-library/src/Attestation/AttestationClient/lib/TpmCertOperations.cpp:206-225 | Text that does not decode leaves the TPM as it was; writing back what was read changes nothing. |
| Url.ParseURL | client-library/src/Attestation/AttestationClient/lib/AttestationLibUtils.cpp:652-687 | The index arithmetic computes the specified host, or the error. |
| Url.HostIsFound | client-library/src/Attestation/AttestationClient/lib/AttestationLibUtils.cpp:652-687 | The host is recovered from white space, no or either scheme, host, optional port, optional path (section 3.2 of RFC 3986), unless the text is one with a scheme after all. |
| Url.HostIsFoundIff | client-library/src/Attestation/AttestationClient/lib/AttestationLibUtils.cpp:652-687 | For each URL of that form: the host is found exactly unless the URL is ambiguous and what stands behind its slashes does not start with the same host. |
| Url.AmbiguousYields | client-library/src/Attestation/AttestationClient/lib/AttestationLibUtils.cpp:664-675 | An ambiguous URL gives the host of what stands behind its slashes. |
| Url.AlwaysFoundIff | client-library/src/Attestation/AttestationClient/lib/AttestationLibUtils.cpp:664-669 | A host is found with every port, path and outer white space exactly unless there is no scheme and the host is the name of one. |
| Url.ResultIsSlice | client-library/src/Attestation/AttestationClient/lib/AttestationLibUtils.cpp:652-687 | When parsing succeeds at all, and that the result is a nonempty slice without colons right behind the scheme. |
| Url.ParseVectors | client-library/src/Attestation/AttestationClient/lib/AttestationLibUtils.cpp:652-687 | Hosts of literal URLs. |
| BatchUnwrap.UnwrapKey | cvm-securekey-release-app/AttestationUtil.cpp:1416-1480 | The single operation, with each error in the order the code meets it. |
| BatchUnwrap.UnwrapIs | cvm-securekey-release-app/AttestationUtil.cpp:1416-1480 | Every outcome of unwrapping in the order it is decided; a key comes back as what RSA gives without its trailing zeros. |
| BatchUnwrap.HashNames | cvm-securekey-release-app/AttestationUtil.cpp:1190-1203 | The four hash names, and no others. |
| BatchUnwrap.NormalisedCharacter | cvm-securekey-release-app/AttestationUtil.cpp:1192-1195 | Which characters of a name vanish or change. |
| BatchUnwrap.HashesIff | cvm-securekey-release-app/AttestationUtil.cpp:1456-1457 | The mask hash is the other one unless it is named. |
| BatchUnwrap.UnwrapUndoesWrapIff | cvm-securekey-release-app/AttestationUtil.cpp:1368-1480 | When the ciphertext ends in a byte other than zero, the key comes back exactly if it is empty or ends in one too; otherwise RSA gets a ciphertext cut short. |
| BatchUnwrap.TrailingZeroIsLost | cvm-securekey-release-app/AttestationUtil.cpp:1368-1480 | A key that loses its last byte, and a key that does not come back for a ciphertext that lost its. |
| BatchUnwrap.UnwrapEntries | cvm-securekey-release-app/AttestationUtil.cpp:1524-1580 | The loop: an answer for every entry in order, successes and errors adding up, unless an entry of the wrong type ends it. |
| BatchUnwrap.UnwrapKeyBatch | cvm-securekey-release-app/AttestationUtil.cpp:1482-1590 | One release for the batch. It returns results exactly when it is not refused, no entry has a wrong type and every key the single operation returns is UTF-8; otherwise which error. There are as many results as entries, each with exactly one of key and error. |
| BatchUnwrap.BatchAgreesWithSingle | cvm-securekey-release-app/AttestationUtil.cpp:1416-1590 | A result holds a key exactly when the single operation returns that key, whatever the other entries are. |
| BatchUnwrap.AnswersAreUnique | cvm-securekey-release-app/AttestationUtil.cpp:1524-1580 | Only one list of results answers a list of entries. |
| BatchUnwrap.DecimalIs | cvm-securekey-release-app/AttestationUtil.cpp:1544-1544 | The default id of an entry reads as its index, without leading zeros. |
| BatchUnwrap.PrintableIff | cvm-securekey-release-app/AttestationUtil.cpp:1544-1589 | The results can be printed exactly when every key that the single operation returns is UTF-8. |
| BatchUnwrap.OneKeyCanCostTheBatch | cvm-securekey-release-app/AttestationUtil.cpp:1587-1589 | Two entries that both unwrap alone: printing the second one's byte fails, so the batch does, while the first alone is accepted. |
| Hex.BinaryToHex | cvm-securekey-release-app/AttestationUtil.cpp:66-75 | The stream of two-digit fields is the hexadecimal text. |
| Hex.HexToBinary | cvm-securekey-release-app/AttestationUtil.cpp:78-88 | Two characters at a time, malformed and odd ones as strtol reads them. |
| Hex.FromHexUndoesToHex | cvm-securekey-release-app/AttestationUtil.cpp:66-88 | Every byte string comes back from its text. |
| Hex.EitherCase | cvm-securekey-release-app/AttestationUtil.cpp:78-88 | Digits of either case give the same bytes. |
| KnownAnswers.StrtolVector | cvm-securekey-release-app/AttestationUtil.cpp:84-84 | What text that is no digit pair is read as. |
| Hex.ToHexUndoesFromHexIff | cvm-securekey-release-app/AttestationUtil.cpp:66-88 | A text comes back from its bytes exactly when it is an even number of lower-case digits. |
| SplitText.SplitString | cvm-securekey-release-app/AttestationUtil.cpp:496-510 | The reading loop gives the pieces between delimiters. |
| SplitText.PiecesRejoin | cvm-securekey-release-app/AttestationUtil.cpp:496-510 | The pieces rejoin to the text but for a delimiter at its end; how many there are. |
| SplitText.ThreePiecesIff | cvm-securekey-release-app/AttestationUtil.cpp:1033-1034 | A text has three pieces exactly when it holds two delimiters and does not end in one, or three and does. |
| SplitText.EmptyFourthPartIsLost | cvm-securekey-release-app/AttestationUtil.cpp:496-510 | A text with a fourth, empty part splits like the one without it. |

## Left out

- AesWrapper.ProviderEncrypt: stands for a closed library; of its failures only a missing key and wrong buffer sizes are modelled, so allocation and handle failures are not.
- AesWrapper.GcmWrapper.Encrypt: sizes are unbounded, so the truncation of the block count to a 32-bit `long` beyond 2^31 blocks is not modelled; the record is taken as fresh, which every caller of the repository ensures.
- Hkdf.BcryptHkdf.Expand: the round count is exact, as the `double` division is below 2^53 bytes; the 32-bit round count is not modelled.
- Smbios.WalkTable: index arithmetic does not wrap at 2^32.
- Uuid.GetSystemUuid: what reading outside the table gives is undefined and stays so; the file that Linux reads the UUID from is not modelled.
- NvRead.Tss2NvRead: a read that never ends has no result and is excluded; when that is, NvRead.NeverOverIff says exactly.
- EccBlob.ImportPkcs8PrivateKey: a copy that would leave its slot is an error value, as what follows is undefined; keys are below 2^30 bytes.
- RsaBlob.ConvertToBcryptKey: the exported blob is taken to be as long as its header says, below 2^30 bytes.
- Attest.Attest: certificate renewal, URL parsing and parameter collection before the rounds are not part of it; what an exception escaping a function that must not throw leaves behind is an error value here.
- Retry.SendRequest: failure to initialise curl, and the text of its errors, are not modelled; delays are exact integers.
- BatchUnwrap.UnwrapKey: an RSA failure, which aborts the process in the single operation, is an error value; error texts are not modelled.
- Url.ParseURL: characters are compared as characters; the locale of the white-space test is the classic one.
- Jwt.JsonWebToken.ParseToken: of X.509, loading, chain trust and signature validity are oracles; the subject suffix is passed to them.
- Envelope.EncryptWithPadding: random values, clock readings and key pairs are parameters; console output is left out. Key import and export are those of the Windows build; the Linux one leaves both to OpenSSL.
- Linux key handling and error paths other than HKDF's: the libraries called are the one-shot specifications themselves.
- JSON syntax, UTF-8 conversion and DER encoding: library calls, abstracted by laws.
- TPM key objects, RSA internals, the HCL report, isolation detection, telemetry, logging, environment and command-line parsing: finite, single-branch, or outside the repository.
- Memory management: freeing, handle leaks and failed allocations.
- The sample application's own copies of the trimming codecs: the same code as the release application's.
