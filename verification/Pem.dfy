/** The certificate of the attestation key as PEM text, and taking that text apart again. */
module Pem {
  import opened Bytes
  import opened Base64
  import opened Base64Laws

  const CR: byte := '\r' as int
  const LF: byte := '\n' as int
  const DASH: byte := '-' as int

  const BEGIN_LINE: bytes := Ascii("-----BEGIN CERTIFICATE-----")
  const END_LINE: bytes := Ascii("-----END CERTIFICATE-----")

  /** The two patterns: a line end belongs to the header, and another to the footer. */
  const HEADER: bytes := BEGIN_LINE + [LF]
  const FOOTER: bytes := [LF] + END_LINE

  /** Every match of the pattern removed, leftmost first, matches not overlapping. */
  function RemoveAll(s: bytes, pattern: bytes): (r: bytes)
    requires pattern != []
  {
    if s == [] then
      []
    else if pattern <= s then
      RemoveAll(s[|pattern|..], pattern)
    else
      [s[0]] + RemoveAll(s[1..], pattern)
  }

  function Strip(pem: bytes): bytes {
    RemoveAll(RemoveAll(RemoveAll(RemoveAll(pem, [CR]), HEADER), FOOTER), [LF])
  }

  method RemoveCertHeaderAndFooter(pemCert: bytes) returns (cert: bytes)
    ensures cert == Strip(pemCert)
  {
    if pemCert == [] {
      return [];
    }
    cert := RemoveAll(pemCert, [CR]);
    cert := RemoveAll(cert, HEADER);
    cert := RemoveAll(cert, FOOTER);
    cert := RemoveAll(cert, [LF]);
  }

  /** The text made from a certificate read from the TPM. */
  function Wrap(der: bytes): bytes {
    HEADER + Encode(der) + FOOTER
  }

  // ---------- removing matches ----------

  lemma {:induction false} Skip(x: bytes, y: bytes, pattern: bytes)
    requires pattern != []
    requires forall i :: 0 <= i < |x| ==> !(pattern <= (x + y)[i..])
    ensures RemoveAll(x + y, pattern) == x + RemoveAll(y, pattern)
  {
    if x == [] {
      assert x + y == y;
    } else {
      var s := x + y;
      assert !(pattern <= s[0..]) && s[0..] == s;
      assert s[1..] == x[1..] + y;
      forall i | 0 <= i < |x[1..]| ensures !(pattern <= (x[1..] + y)[i..]) {
        assert (x[1..] + y)[i..] == s[i + 1..];
      }
      Skip(x[1..], y, pattern);
    }
  }

  lemma MatchGoes(pattern: bytes, y: bytes)
    requires pattern != []
    ensures RemoveAll(pattern + y, pattern) == RemoveAll(y, pattern)
  {
    assert (pattern + y)[|pattern|..] == y;
  }

  /** A character that differs, or is not there, rules a match out. */
  lemma NoMatchAt(s: bytes, i: nat, pattern: bytes, k: nat)
    requires i <= |s| && k < |pattern|
    requires i + k < |s| ==> s[i + k] != pattern[k]
    ensures !(pattern <= s[i..])
  {
    var t := s[i..];
    assert k < |t| ==> t[k] == s[i + k];
  }

  /** Text without some character of the pattern has no match. */
  lemma NoMatch(s: bytes, pattern: bytes, k: nat)
    requires k < |pattern| && pattern[k] !in s
    ensures RemoveAll(s, pattern) == s
  {
    forall i | 0 <= i < |s| ensures !(pattern <= (s + [])[i..]) {
      NoMatchAt(s + [], i, pattern, k);
    }
    Skip(s, [], pattern);
    assert s + [] == s;
  }

  lemma {:induction false} RemoveCharacter(a: bytes, b: bytes, c: byte)
    ensures RemoveAll(a + b, [c]) == RemoveAll(a, [c]) + RemoveAll(b, [c])
    ensures c !in RemoveAll(a, [c])
  {
    if a == [] {
      assert a + b == b;
    } else {
      assert (a + b)[1..] == a[1..] + b;
      RemoveCharacter(a[1..], b, c);
    }
  }

  lemma {:induction false} RemovedIsSubset(s: bytes, c: byte)
    ensures forall x :: x in RemoveAll(s, [c]) ==> x in s
    ensures forall x :: x in s && x != c ==> x in RemoveAll(s, [c])
  {
    if s != [] {
      RemovedIsSubset(s[1..], c);
    }
  }

  // ---------- what stripping does to a certificate ----------

  /** Base64 text of the certificate, broken anywhere by line ends of any kind. */
  ghost predicate IsBody(body: bytes, der: bytes) {
    RemoveAll(RemoveAll(body, [CR]), [LF]) == Encode(der)
  }

  ghost predicate LineEndsOnly(t: bytes) {
    forall c :: c in t ==> c == CR || c == LF
  }

  /** Carriage returns aside, a line end after the header line and another before the footer line. */
  predicate Framed(body: bytes) {
    var b := RemoveAll(body, [CR]);
    |b| >= 2 && b[0] == LF && b[|b| - 1] == LF
  }

  lemma Lines()
    ensures CR !in BEGIN_LINE && CR !in END_LINE && LF !in BEGIN_LINE && LF !in END_LINE
    ensures BEGIN_LINE[5] == 'B' as int && 'B' as int !in END_LINE
    ensures BEGIN_LINE[0] == DASH && END_LINE[0] == DASH
  {
  }

  lemma BodyHasNoDash(body: bytes, der: bytes)
    requires IsBody(body, der)
    ensures DASH !in body
  {
    hide RemoveAll, Encode;
    EncodedAlphabet(der);
    RemovedIsSubset(body, CR);
    RemovedIsSubset(RemoveAll(body, [CR]), LF);
    assert Sextet(DASH) == -1;
  }

  /** Removing the carriage returns leaves the lines, and the rest without them. */
  lemma CarriageReturnsGo(body: bytes, tail: bytes)
    ensures RemoveAll(BEGIN_LINE + body + END_LINE + tail, [CR])
         == BEGIN_LINE + RemoveAll(body, [CR]) + END_LINE + RemoveAll(tail, [CR])
  {
    hide RemoveAll;
    Lines();
    RemoveCharacter(BEGIN_LINE + body + END_LINE, tail, CR);
    RemoveCharacter(BEGIN_LINE + body, END_LINE, CR);
    RemoveCharacter(BEGIN_LINE, body, CR);
    NoMatch(BEGIN_LINE, [CR], 0);
    NoMatch(END_LINE, [CR], 0);
  }

  /** The header goes, and nothing else with it. */
  lemma HeaderGoes(b: bytes, t: bytes)
    requires DASH !in b && |b| > 0 && b[0] == LF
    requires forall c :: c in t ==> c == LF
    ensures RemoveAll(BEGIN_LINE + b + END_LINE + t, HEADER) == b[1..] + END_LINE + t
  {
    hide RemoveAll;
    Lines();
    var rest := END_LINE + t;
    assert BEGIN_LINE + b + END_LINE + t == HEADER + (b[1..] + rest);
    MatchGoes(HEADER, b[1..] + rest);
    forall i | 0 <= i < |b[1..]| ensures !(HEADER <= (b[1..] + rest)[i..]) {
      NoMatchAt(b[1..] + rest, i, HEADER, 0);
    }
    Skip(b[1..], rest, HEADER);
    NoMatch(rest, HEADER, 5);
  }

  /** So does the footer, if a line end is left for it. */
  lemma FooterGoes(b: bytes, t: bytes)
    requires DASH !in b && |b| > 0 && b[|b| - 1] == LF
    requires forall c :: c in t ==> c == LF
    ensures RemoveAll(b + END_LINE + t, FOOTER) == b[..|b| - 1] + t
  {
    hide RemoveAll;
    Lines();
    var front := b[..|b| - 1];
    var rest := FOOTER + t;
    assert b + END_LINE + t == front + rest;
    forall i | 0 <= i < |front| ensures !(FOOTER <= (front + rest)[i..]) {
      NoMatchAt(front + rest, i, FOOTER, 1);
    }
    Skip(front, rest, FOOTER);
    MatchGoes(FOOTER, t);
    NoMatch(t, FOOTER, 1);
  }

  /** Without one, a dash stays. */
  lemma FooterStays(b: bytes, t: bytes)
    requires DASH !in b && (b == [] || b[|b| - 1] != LF)
    ensures DASH in RemoveAll(b + END_LINE + t, FOOTER)
  {
    Lines();
    var rest := END_LINE + t;
    assert b + END_LINE + t == b + rest;
    forall i | 0 <= i < |b| ensures !(FOOTER <= (b + rest)[i..]) {
      NoMatchAt(b + rest, i, FOOTER, if b[i] == LF then 1 else 0);
    }
    Skip(b, rest, FOOTER);
    NoMatchAt(rest, 0, FOOTER, 0);
    assert rest[0..] == rest;
    assert RemoveAll(rest, FOOTER)[0] == DASH;
  }

  lemma HeaderStays(b: bytes, t: bytes)
    requires b == [] || b[0] != LF
    ensures var r := RemoveAll(BEGIN_LINE + b + END_LINE + t, HEADER); r != [] && r[0] == DASH
  {
    Lines();
    var s := BEGIN_LINE + b + END_LINE + t;
    assert s[|BEGIN_LINE|] == (if b == [] then END_LINE[0] else b[0]);
    assert HEADER[|BEGIN_LINE|] == LF;
  }

  lemma DashDoesNotDecode(s: bytes)
    requires DASH in s
    ensures Decode(s) == Err(InvalidCharacter)
  {
    var k :| 0 <= k < |s| && s[k] == DASH;
    assert Sextet(s[k]) == -1;
  }

  /**
   For every certificate and every breaking of its base64 text into lines, with any line ends
   after the footer: stripping and decoding returns the certificate exactly when, carriage returns
   aside, a line feed follows the header line and a second one precedes the footer line.
   */
  lemma StripUndoesPemIff(der: bytes, body: bytes, tail: bytes)
    requires IsBody(body, der) && LineEndsOnly(tail)
    ensures Decode(Strip(BEGIN_LINE + body + END_LINE + tail)) == Ok(der) <==> Framed(body)
  {
    hide RemoveAll, Encode, Decode;
    var b, t := RemoveAll(body, [CR]), RemoveAll(tail, [CR]);
    CarriageReturnsGo(body, tail);
    BodyHasNoDash(body, der);
    RemovedIsSubset(body, CR);
    RemovedIsSubset(tail, CR);
    RemoveCharacter(tail, [], CR);
    if b == [] || b[0] != LF {
      HeaderStays(b, t);
      KeepsDash(BEGIN_LINE + b + END_LINE + t);
    } else {
      HeaderGoes(b, t);
      if Framed(body) {
        FooterGoes(b[1..], t);
        OnlyLineFeedsGo(b, t);
        DecodeUndoesEncode(der);
      } else {
        FooterStays(b[1..], t);
        RemovedIsSubset(RemoveAll(b[1..] + END_LINE + t, FOOTER), LF);
        DashDoesNotDecode(RemoveAll(RemoveAll(b[1..] + END_LINE + t, FOOTER), [LF]));
      }
    }
  }

  lemma KeepsDash(s: bytes)
    requires var r := RemoveAll(s, HEADER); r != [] && r[0] == DASH
    ensures Decode(RemoveAll(RemoveAll(RemoveAll(s, HEADER), FOOTER), [LF])) == Err(InvalidCharacter)
  {
    hide Decode;
    var r := RemoveAll(s, HEADER);
    assert FOOTER[0] == LF;
    assert RemoveAll(r, FOOTER)[0] == DASH;
    RemovedIsSubset(RemoveAll(r, FOOTER), LF);
    DashDoesNotDecode(RemoveAll(RemoveAll(r, FOOTER), [LF]));
  }

  lemma OnlyLineFeedsGo(b: bytes, t: bytes)
    requires |b| >= 2 && b[0] == LF && b[|b| - 1] == LF
    requires forall c :: c in t ==> c == LF
    ensures RemoveAll(b[1..][..|b[1..]| - 1] + t, [LF]) == RemoveAll(b, [LF])
  {
    hide RemoveAll;
    var middle := b[1..][..|b[1..]| - 1];
    assert b == [LF] + middle + [LF];
    RemoveCharacter([LF] + middle, [LF], LF);
    RemoveCharacter([LF], middle, LF);
    RemoveCharacter(middle, t, LF);
    OnlyThat(t);
    OnlyThat([LF]);
  }

  lemma {:induction false} OnlyThat(t: bytes)
    requires forall c :: c in t ==> c == LF
    ensures RemoveAll(t, [LF]) == []
  {
    if t != [] {
      assert t[0] in t;
      assert forall c :: c in t[1..] ==> c in t;
      OnlyThat(t[1..]);
    }
  }

  /** In particular, the text made from the TPM's certificate strips back to it. */
  lemma StripUndoesWrap(der: bytes)
    ensures Decode(Strip(Wrap(der))) == Ok(der)
  {
    hide RemoveAll, Encode, Decode, Strip;
    var body := [LF] + Encode(der) + [LF];
    assert Wrap(der) == BEGIN_LINE + body + END_LINE + [];
    WrapsBody(der);
    StripUndoesPemIff(der, body, []);
  }

  lemma WrapsBody(der: bytes)
    ensures var body := [LF] + Encode(der) + [LF]; IsBody(body, der) && Framed(body)
  {
    hide RemoveAll, Encode;
    var body := [LF] + Encode(der) + [LF];
    EncodedAlphabet(der);
    assert Sextet(LF) == -1 && Sextet(CR) == -1;
    NoMatch(body, [CR], 0);
    NoMatch(Encode(der), [LF], 0);
    RemoveCharacter([LF] + Encode(der), [LF], LF);
    RemoveCharacter([LF], Encode(der), LF);
    OnlyThat([LF]);
  }

  /** PEM text whose lines end in bare carriage returns does not give the certificate back, whichever it is. */
  lemma BareReturnsDoNotStrip(der: bytes)
    ensures
      var body := [CR] + Encode(der) + [CR];
      IsBody(body, der) && Decode(Strip(BEGIN_LINE + body + END_LINE + [])) != Ok(der)
  {
    hide RemoveAll, Encode, Decode, Strip;
    var body := [CR] + Encode(der) + [CR];
    EncodedAlphabet(der);
    assert Sextet(LF) == -1 && Sextet(CR) == -1;
    RemoveCharacter([CR] + Encode(der), [CR], CR);
    RemoveCharacter([CR], Encode(der), CR);
    NoMatch(Encode(der), [CR], 0);
    NoMatch(Encode(der), [LF], 0);
    OneGoes(CR);
    assert RemoveAll(body, [CR]) == Encode(der);
    assert !Framed(body);
    StripUndoesPemIff(der, body, []);
  }

  lemma OneGoes(c: byte)
    ensures RemoveAll([c], [c]) == []
  {
    assert [c][1..] == [];
  }


  // ---------- reading and replacing the certificate ----------

  /** The place in the TPM that holds the certificate of the attestation key. */
  class AkCertIndex {
    var der: bytes

    constructor (der: bytes)
      ensures this.der == der
    {
      this.der := der;
    }
  }

  method ReadAkCertFromTpm(tpm: AkCertIndex) returns (akCert: bytes)
    ensures akCert == Wrap(tpm.der)
    ensures Decode(Strip(akCert)) == Ok(tpm.der)
  {
    akCert := HEADER + Encode(tpm.der) + FOOTER;
    StripUndoesWrap(tpm.der);
  }

  /** Writes the renewed certificate; text that does not decode leaves the TPM as it was. */
  method ReplaceAkCert(tpm: AkCertIndex, renewedCert: bytes) returns (r: Result<(), DecodeError>)
    modifies tpm
    ensures r.Ok? == Decode(Strip(renewedCert)).Ok?
    ensures r.Ok? ==> Decode(Strip(renewedCert)) == Ok(tpm.der)
    ensures r.Err? ==> tpm.der == old(tpm.der)
    ensures renewedCert == Wrap(old(tpm.der)) ==> r.Ok? && tpm.der == old(tpm.der)
  {
    StripUndoesWrap(tpm.der);
    var text := RemoveCertHeaderAndFooter(renewedCert);
    var certDer :- Decode(text);
    tpm.der := certDer;
    return Ok(());
  }

  /** The text in literal form. */
  lemma WrapIs(der: bytes)
    ensures Wrap(der) ==
            Ascii("-----BEGIN CERTIFICATE-----") + [10] + Encode(der) + [10] + Ascii("-----END CERTIFICATE-----")
    ensures CR == 13
  {
    hide Ascii, Encode;
  }
}
