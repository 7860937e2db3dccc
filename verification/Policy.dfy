/** What kind of payload an input is, and whether the caller's policy accepts it. */
module Policy {
  import opened Bytes
  import opened Json
  import opened Jwt
  import opened ReturnCodes

  // Features of a payload, and the options that waive or allow them; the bits coincide.
  const ENCRYPTED: nat := 1
  const SIGNED: nat := 2
  const LEGACY: nat := 4
  const ALLOW_UNENCRYPTED: nat := 1
  const ALLOW_UNSIGNED: nat := 2
  const ALLOW_LEGACY: nat := 4

  /** (word & flag) == flag, for a single bit. */
  predicate IsSet(word: nat, flag: nat)
    requires flag > 0
  {
    word / flag % 2 == 1
  }

  const PURPOSE := "x-az-cvm-purpose"

  function Required(): seq<(string, bytes)> {
    [(PURPOSE, Ascii("secrets-provisioning"))]
  }

  function SubjectSuffix(): bytes {
    Ascii(".SecureCPSProvisioning.cloudapp.net")
  }

  type wchar = nat

  /** The platform's converters; an empty result of a nonempty input is a failed conversion. */
  datatype Utf = Utf(toUtf8: seq<wchar> -> bytes, toWide: bytes -> seq<wchar>) {
    ghost predicate Lawful() {
      toUtf8([]) == [] && toWide([]) == []
    }
  }

  // ---------- evaluation ----------

  datatype Payload = LegacyPayload | Token(state: TokenState)

  /** A token is parsed and verified; anything that is not one for this purpose is legacy data. */
  function Evaluate(text: JsonText, x: X509, input: bytes): Result<Payload, Failure> {
    if !IsRealJwt(text, input, Required()) then Ok(LegacyPayload)
    else
      var (st, failure) := Parse(text, x, NewToken(), input, true, SubjectSuffix());
      if failure.Some? then Err(failure.value) else Ok(Token(st))
  }

  function EvaluateWide(text: JsonText, x: X509, utf: Utf, input: seq<wchar>): Result<Payload, Failure> {
    var u := utf.toUtf8(input);
    if u == [] && input != [] then Ok(LegacyPayload) else Evaluate(text, x, u)
  }

  function Features(p: Payload): nat {
    match p
    case LegacyPayload => LEGACY
    case Token(st) =>
      (if Contains(st.claims, "encryptedSecret") then ENCRYPTED else 0)
      + (if st.signature != [] then SIGNED else 0)
  }

  predicate Compliant(policy: nat, features: nat) {
    if IsSet(features, LEGACY) then IsSet(policy, ALLOW_LEGACY)
    else
      && (IsSet(features, ENCRYPTED) || IsSet(policy, ALLOW_UNENCRYPTED))
      && (IsSet(features, SIGNED) || IsSet(policy, ALLOW_UNSIGNED))
  }

  /** Every option of the one word is among those of the other. */
  predicate Covers(wider: nat, policy: nat) {
    && (IsSet(policy, ALLOW_UNENCRYPTED) ==> IsSet(wider, ALLOW_UNENCRYPTED))
    && (IsSet(policy, ALLOW_UNSIGNED) ==> IsSet(wider, ALLOW_UNSIGNED))
    && (IsSet(policy, ALLOW_LEGACY) ==> IsSet(wider, ALLOW_LEGACY))
  }

  /**
   One policy accepts every payload another accepts exactly when it has all its options: options
   only ever waive a requirement, each of the three is needed for some payload, and no further bit
   of the word matters.
   */
  lemma AcceptsMoreIff(wider: nat, policy: nat)
    ensures
      (forall p: Payload :: Compliant(policy, Features(p)) ==> Compliant(wider, Features(p))) <==>
      Covers(wider, policy)
  {
    if Covers(wider, policy) {
      forall p: Payload | Compliant(policy, Features(p)) ensures Compliant(wider, Features(p)) {
        FeaturesOf(p);
      }
    } else {
      var encrypted := Token(TokenState(Null, Object(map["encryptedSecret" := Null]), []));
      var signed := Token(TokenState(Null, Null, [0]));
      FeaturesOf(encrypted);
      FeaturesOf(signed);
      assert Features(encrypted) == ENCRYPTED && Features(signed) == SIGNED && Features(LegacyPayload) == LEGACY;
    }
  }

  lemma FeaturesOf(p: Payload)
    ensures IsSet(Features(p), LEGACY) <==> p.LegacyPayload?
    ensures IsSet(Features(p), ENCRYPTED) <==> p.Token? && Contains(p.state.claims, "encryptedSecret")
    ensures IsSet(Features(p), SIGNED) <==> p.Token? && p.state.signature != []
  {
  }

  /** The signed bit is only reported after chain and signature checks over the bytes before the last dot. */
  lemma SignedIsVerified(text: JsonText, x: X509, input: bytes)
    ensures var e := Evaluate(text, x, input);
      e.Ok? && IsSet(Features(e.value), SIGNED) ==>
        && e.value.Token?
        && Split(input).Some?
        && Verified(x, e.value.state.header, Split(input).value.signed, e.value.state.signature, SubjectSuffix())
  {
    var e := Evaluate(text, x, input);
    if e.Ok? && IsSet(Features(e.value), SIGNED) {
      SignedMeansVerified(text, x, NewToken(), input, SubjectSuffix());
    }
  }

  class PolicyEvaluator {
    var policy: nat
    var isLegacy: bool
    var jwt: JsonWebToken?
    var input: Option<bytes>
    var wideInput: Option<seq<wchar>>

    /** What the fields say about the input. */
    function Payload(): Payload
      requires !isLegacy ==> jwt != null
      reads this, jwt
    {
      if isLegacy then LegacyPayload else Token(jwt.State())
    }

    ghost predicate Valid()
      reads this
    {
      isLegacy <==> jwt == null
    }

    constructor Empty(policy: nat)
      ensures Valid() && isLegacy && this.policy == policy && input == None && wideInput == None
    {
      this.policy, isLegacy, jwt, input, wideInput := policy, true, null, None, None;
    }

    /** The constructor for narrow input; a failure is what it throws. */
    static method FromNarrow(text: JsonText, x: X509, policy: nat, input: bytes)
      returns (pe: PolicyEvaluator, failure: Option<Failure>)
      ensures fresh(pe) && pe.policy == policy && pe.input == Some(input)
      ensures failure.Some? ==> Evaluate(text, x, input) == Err(failure.value)
      ensures failure.None? ==> pe.Valid() && Evaluate(text, x, input) == Ok(pe.Payload())
    {
      pe := new PolicyEvaluator.Empty(policy);
      pe.input := Some(input);
      failure := pe.Classify(text, x, input);
    }

    /** The constructor for wide input converts first; a failed conversion reads as legacy data. */
    static method FromWide(text: JsonText, x: X509, utf: Utf, policy: nat, input: seq<wchar>)
      returns (pe: PolicyEvaluator, failure: Option<Failure>)
      ensures fresh(pe) && pe.policy == policy && pe.wideInput == Some(input)
      ensures failure.Some? ==> EvaluateWide(text, x, utf, input) == Err(failure.value)
      ensures failure.None? ==> pe.Valid() && EvaluateWide(text, x, utf, input) == Ok(pe.Payload())
    {
      pe := new PolicyEvaluator.Empty(policy);
      pe.wideInput := Some(input);
      var u := utf.toUtf8(input);
      if u == [] && input != [] {
        return pe, None;
      }
      failure := pe.Classify(text, x, u);
    }

    method Classify(text: JsonText, x: X509, token: bytes) returns (failure: Option<Failure>)
      requires Valid() && isLegacy
      modifies this`isLegacy, this`jwt
      ensures failure.Some? ==> Evaluate(text, x, token) == Err(failure.value)
      ensures failure.None? ==> Valid() && Evaluate(text, x, token) == Ok(Payload())
    {
      isLegacy := !IsRealJwt(text, token, Required());
      if isLegacy { return None; }
      var parsed := new JsonWebToken(text, x);
      jwt := parsed;
      failure := parsed.ParseToken(token, true, SubjectSuffix());
    }

    method GetEvaluatedPolicy() returns (features: nat)
      requires Valid()
      ensures features == Features(Payload())
    {
      features := 0;
      if !isLegacy && Contains(jwt.jwt, "encryptedSecret") { features := features + ENCRYPTED; }
      if !isLegacy && |jwt.signature| > 0 { features := features + SIGNED; }
      if isLegacy { features := features + LEGACY; }
    }

    method IsCompliant() returns (r: bool)
      requires Valid()
      ensures r == Compliant(policy, Features(Payload()))
    {
      var features := GetEvaluatedPolicy();
      if IsSet(features, LEGACY) { return IsSet(policy, ALLOW_LEGACY); }
      if !IsSet(features, ENCRYPTED) && !IsSet(policy, ALLOW_UNENCRYPTED) { return false; }
      if !IsSet(features, SIGNED) && !IsSet(policy, ALLOW_UNSIGNED) { return false; }
      return true;
    }
  }
}
