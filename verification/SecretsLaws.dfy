/** What a caller may conclude from a reply, and how the two exported calls compare. */
module SecretsLaws {
  import opened Bytes
  import opened Json
  import opened Jwt
  import opened ReturnCodes
  import opened Policy
  import opened Secrets

  lemma RevealedIsNotEmpty(env: Env, st: TokenState)
    requires env.Lawful()
    ensures Reveal(env, st).Ok? ==> Reveal(env, st).value != [] && Contains(st.claims, "encryptedSecret")
  {
    hide DecryptSecret;
    var padding := PaddingScheme(st.header);
    if padding.Ok? {
      OpenedIsNotEmpty(env, st.claims, padding.value);
    }
  }

  /** A length that a long holds as a positive number. */
  predicate IsPositiveLong(length: nat, width: LongWidth)
    ensures 0 < length < 2 * width.Limit() ==> (IsPositiveLong(length, width) <==> length < width.Limit())
  {
    AsLong(length, width) > 0
  }

  /**
   The return value is the length of the output as a long, so it is positive exactly when there is
   an output and its length fits: for every length the interface can pass where long has 64 bits,
   below 2^31 where it has 32. Without an output it is never positive.
   */
  lemma OutputIffPositive(env: Env, input: bytes, policy: nat, r: Reply<byte>)
    requires env.Lawful() && r == Unprotect(env, input, policy)
    ensures r.output.Some? ==>
              r.output.value != [] && r.code == AsLong(|r.output.value|, env.longWidth) && r.eval.Some?
    ensures r.code > 0 <==> r.output.Some? && IsPositiveLong(|r.output.value|, env.longWidth)
    ensures r.output.Some? && |r.output.value| < env.longWidth.Limit() ==> |r.output.value| == r.code
  {
    hide Reveal, Evaluate, Features, Compliant, AsLong;
  }

  /**
   Where long has 32 bits, allowed legacy data of 2^31 bytes or more is returned with a negative
   number; 2^31 NUL bytes are such an input.
   */
  lemma LongLegacyLooksLikeFailure(env: Env, input: bytes, policy: nat, r: Reply<byte>)
    requires env.Lawful() && env.longWidth.Bits32? && r == Unprotect(env, input, policy)
    ensures AllowedLegacy(env, input, policy) && 0x8000_0000 <= |input| < 0x1_0000_0000 ==>
              r.output == Some(input) && r.code == |input| - 0x1_0000_0000 < 0
    ensures input == Zeros(0x8000_0000) && IsSet(policy, ALLOW_LEGACY) ==>
              r.output == Some(input) && r.code == -0x8000_0000
  {
    hide Reveal, IsRealJwt, Parse;
    if input == Zeros(0x8000_0000) {
      NoDotNoToken(env, input);
    }
  }

  lemma NoDotNoToken(env: Env, input: bytes)
    requires '.' as int !in input
    ensures !IsRealJwt(env.text, input, Required())
  {
  }

  /** The payload a reply was computed from is legacy data the caller allows. */
  ghost predicate AllowedLegacy(env: Env, input: bytes, policy: nat) {
    !IsRealJwt(env.text, input, Required()) && IsSet(policy, ALLOW_LEGACY)
  }

  /** The payload is a parsed token, encrypted, and either signed and verified or allowed unsigned. */
  ghost predicate AcceptedToken(env: Env, input: bytes, policy: nat, eval: nat, st: TokenState) {
    && IsRealJwt(env.text, input, Required())
    && Evaluate(env.text, env.x509, input) == Ok(Token(st))
    && IsSet(eval, ENCRYPTED) && Contains(st.claims, "encryptedSecret")
    && if st.signature != [] then
         && IsSet(eval, SIGNED) && Split(input).Some?
         && Verified(env.x509, st.header, Split(input).value.signed, st.signature, SubjectSuffix())
       else IsSet(policy, ALLOW_UNSIGNED) && !IsSet(eval, SIGNED)
  }

  /** Over all inputs and policy words: what a positive return, or any output, means. */
  lemma PositiveReturnMeans(env: Env, input: bytes, policy: nat, r: Reply<byte>)
    requires env.Lawful() && r == Unprotect(env, input, policy) && (r.code > 0 || r.output.Some?)
    ensures r.eval.Some? && r.output.Some?
    ensures
      || (r.eval == Some(LEGACY) && AllowedLegacy(env, input, policy) && r.output == Some(input))
      || (exists st: TokenState ::
            AcceptedToken(env, input, policy, r.eval.value, st) && Reveal(env, st) == Ok(r.output.value))
  {
    hide Reveal, IsRealJwt, Parse, Verified, Split;
    OutputIffPositive(env, input, policy, r);
    SignedIsVerified(env.text, env.x509, input);
    var payload := Evaluate(env.text, env.x509, input).value;
    if payload.Token? {
      RevealedIsNotEmpty(env, payload.state);
      assert AcceptedToken(env, input, policy, Features(payload), payload.state);
    }
  }

  /** And when there is an output, and the return positive: exactly for these two kinds of input. */
  lemma PositiveReturnIff(env: Env, input: bytes, policy: nat, r: Reply<byte>)
    requires env.Lawful() && r == Unprotect(env, input, policy)
    ensures
      r.output.Some? <==>
      || (AllowedLegacy(env, input, policy) && input != [])
      || (exists st: TokenState ::
            AcceptedToken(env, input, policy, Features(Token(st)), st) && Reveal(env, st).Ok?)
    ensures
      r.code > 0 <==>
      || (AllowedLegacy(env, input, policy) && IsPositiveLong(|input|, env.longWidth))
      || (exists st: TokenState ::
            && AcceptedToken(env, input, policy, Features(Token(st)), st)
            && Reveal(env, st).Ok? && IsPositiveLong(|Reveal(env, st).value|, env.longWidth))
  {
    hide Reveal, IsRealJwt, Parse, Verified, Split, AsLong;
    OutputIffPositive(env, input, policy, r);
    if r.output.Some? {
      PositiveReturnMeans(env, input, policy, r);
    }
    if st: TokenState :| AcceptedToken(env, input, policy, Features(Token(st)), st) && Reveal(env, st).Ok? {
      RevealedIsNotEmpty(env, st);
    }
  }

  /** A reported signed bit is never wrong, whatever the call returned. */
  lemma ReportedSignedIsVerified(env: Env, input: bytes, policy: nat, r: Reply<byte>)
    requires env.Lawful() && r == Unprotect(env, input, policy)
    requires r.eval.Some? && IsSet(r.eval.value, SIGNED)
    ensures exists st: TokenState ::
      && Evaluate(env.text, env.x509, input) == Ok(Token(st))
      && Split(input).Some?
      && Verified(env.x509, st.header, Split(input).value.signed, st.signature, SubjectSuffix())
  {
    hide Reveal, Parse, IsRealJwt, Verified, Split;
    SignedIsVerified(env.text, env.x509, input);
    var e := Evaluate(env.text, env.x509, input);
    assert e == Ok(Token(e.value.state));
  }

  /** With no option set only a verified, encrypted token is ever revealed. */
  lemma RequireAll(env: Env, input: bytes, r: Reply<byte>)
    requires env.Lawful() && r == Unprotect(env, input, 0) && (r.code > 0 || r.output.Some?)
    ensures r.eval == Some(ENCRYPTED + SIGNED)
  {
    hide Reveal, Parse, IsRealJwt, Verified, Split, Evaluate;
    OutputIffPositive(env, input, 0, r);
  }

  // ---------- wide and narrow ----------

  ghost predicate Converts(env: Env, w: seq<wchar>) {
    env.utf.toUtf8(w) != [] || w == []
  }

  /** The decrypted text cannot be converted: the one failure only the wide call has. */
  ghost predicate OutputConversionFails(env: Env, u: bytes, narrow: Reply<byte>) {
    && IsRealJwt(env.text, u, Required())
    && narrow.output.Some? && env.utf.toWide(narrow.output.value) == []
  }

  /** On convertible input both calls report the same policy, and fail alike, with the same code. */
  lemma WideSimulatesNarrow(env: Env, w: seq<wchar>, policy: nat, wide: Reply<wchar>, narrow: Reply<byte>)
    requires env.Lawful() && Converts(env, w)
    requires wide == UnprotectWide(env, w, policy) && narrow == Unprotect(env, env.utf.toUtf8(w), policy)
    ensures wide.eval == narrow.eval
    ensures OutputConversionFails(env, env.utf.toUtf8(w), narrow)
      ==> wide.code == JWT_INVALID_FIELD && wide.output == None
    ensures !OutputConversionFails(env, env.utf.toUtf8(w), narrow) ==>
      && (narrow.output.None? ==> wide.output == None && wide.code == narrow.code)
      && (narrow.output.Some? && IsRealJwt(env.text, env.utf.toUtf8(w), Required())
          ==> wide.output == Some(env.utf.toWide(narrow.output.value)))
      && (narrow.output.Some? && !IsRealJwt(env.text, env.utf.toUtf8(w), Required())
          ==> wide.output == Some(w) && narrow.output == Some(env.utf.toUtf8(w)))
      && (wide.output.Some? ==> wide.code == AsLong(|wide.output.value|, env.longWidth))
  {
    hide Reveal, Parse, IsRealJwt, Features, Compliant;
    var u := env.utf.toUtf8(w);
    var e := Evaluate(env.text, env.x509, u);
    if e.Ok? && e.value.Token? {
      RevealedIsNotEmpty(env, e.value.state);
    }
    assert w == [] ==> u == [];
  }

  /** Input that cannot be converted is legacy data to the wide call. */
  lemma UnconvertibleIsLegacy(env: Env, w: seq<wchar>, policy: nat)
    requires env.Lawful() && !Converts(env, w)
    ensures UnprotectWide(env, w, policy)
         == if IsSet(policy, ALLOW_LEGACY) then Reply(AsLong(|w|, env.longWidth), Some(w), Some(LEGACY))
            else Reply(POLICY_MISMATCH, None, Some(LEGACY))
  {
    hide Reveal, Evaluate;
  }

  /** The same for the wide call, whose length counts wide characters. */
  lemma WideOutputIffPositive(env: Env, input: seq<wchar>, policy: nat, r: Reply<wchar>)
    requires env.Lawful() && r == UnprotectWide(env, input, policy)
    ensures r.output.Some? ==>
              r.output.value != [] && r.code == AsLong(|r.output.value|, env.longWidth) && r.eval.Some?
    ensures r.code > 0 <==> r.output.Some? && IsPositiveLong(|r.output.value|, env.longWidth)
    ensures r.output.Some? && |r.output.value| < env.longWidth.Limit() ==> |r.output.value| == r.code
  {
    hide Reveal, EvaluateWide, Features, Compliant, AsLong;
  }

  /**
   Over all wide inputs and policy words: a positive return means allowed legacy data returned as it
   came, or an accepted token whose plaintext converts to the output.
   */
  lemma WidePositiveReturnMeans(env: Env, w: seq<wchar>, policy: nat, r: Reply<wchar>)
    requires env.Lawful() && r == UnprotectWide(env, w, policy) && (r.code > 0 || r.output.Some?)
    ensures r.eval.Some? && r.output.Some?
    ensures
      var u := env.utf.toUtf8(w);
      || (r.eval == Some(LEGACY) && IsSet(policy, ALLOW_LEGACY) && r.output == Some(w)
          && (!Converts(env, w) || !IsRealJwt(env.text, u, Required())))
      || (exists st: TokenState ::
            && AcceptedToken(env, u, policy, r.eval.value, st)
            && Reveal(env, st).Ok?
            && r.output == Some(env.utf.toWide(Reveal(env, st).value)))
  {
    hide Reveal, IsRealJwt, Evaluate, Verified, Split, Unprotect, UnprotectWide, AcceptedToken, OutputConversionFails;
    WideOutputIffPositive(env, w, policy, r);
    if !Converts(env, w) {
      UnconvertibleIsLegacy(env, w, policy);
    } else {
      var u := env.utf.toUtf8(w);
      var narrow := Unprotect(env, u, policy);
      WideSimulatesNarrow(env, w, policy, r, narrow);
      OutputIffPositive(env, u, policy, narrow);
      PositiveReturnMeans(env, u, policy, narrow);
      AcceptedIsReal(env, u, policy, narrow.eval.value);
    }
  }

  lemma AcceptedIsReal(env: Env, u: bytes, policy: nat, eval: nat)
    ensures forall st: TokenState :: AcceptedToken(env, u, policy, eval, st) ==> IsRealJwt(env.text, u, Required())
  {
    hide IsRealJwt, Evaluate, Verified, Split;
  }
}
