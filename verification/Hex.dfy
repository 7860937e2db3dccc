/** Hexadecimal text of byte strings, and back. */
module Hex {
  import opened Bytes

  /** A lower-case digit. */
  function HexDigit(d: nat): byte
    requires d < 16
  {
    if d < 10 then '0' as int + d else 'a' as int + d - 10
  }

  /** The value of a digit in either case, -1 for any other character. */
  function HexValue(c: byte): (d: int)
    ensures -1 <= d < 16
  {
    if '0' as int <= c <= '9' as int then c - '0' as int
    else if 'a' as int <= c <= 'f' as int then c - 'a' as int + 10
    else if 'A' as int <= c <= 'F' as int then c - 'A' as int + 10
    else -1
  }

  predicate IsSpace(c: byte) {
    c == ' ' as int || 9 <= c <= 13
  }

  function Digits(s: bytes, acc: nat): nat {
    if s == [] || HexValue(s[0]) < 0 then acc else Digits(s[1..], acc * 16 + HexValue(s[0]))
  }

  /**
   strtol in base 16 on one or two characters: white space, a sign, digits until the first other
   character. A "0x" prefix has no digit behind it here, so only its zero is read.
   */
  function Strtol(s: bytes): int {
    if s == [] then 0
    else if IsSpace(s[0]) then Strtol(s[1..])
    else if s[0] == '-' as int then 0 - Digits(s[1..], 0)
    else if s[0] == '+' as int then Digits(s[1..], 0)
    else Digits(s, 0)
  }

  function ToHex(v: bytes): (s: bytes)
    ensures |s| == 2 * |v|
  {
    if v == [] then [] else [HexDigit(v[0] / 16), HexDigit(v[0] % 16)] + ToHex(v[1..])
  }

  /** Two characters a byte, the last one alone if the length is odd. */
  function FromHex(s: bytes): (v: bytes)
    ensures |v| == (|s| + 1) / 2
  {
    if s == [] then []
    else if |s| == 1 then [Strtol(s) % 256]
    else [Strtol(s[..2]) % 256] + FromHex(s[2..])
  }

  predicate IsLowerHex(s: bytes) {
    forall i :: 0 <= i < |s| ==> HexValue(s[i]) >= 0 && !('A' as int <= s[i] <= 'F' as int)
  }

  lemma DigitsAdd(c: byte, s: bytes, acc: nat)
    requires HexValue(c) >= 0
    ensures Digits([c] + s, acc) == Digits(s, acc * 16 + HexValue(c))
  {
    assert ([c] + s)[1..] == s;
  }

  lemma TwoDigits(a: byte, b: byte)
    requires HexValue(a) >= 0 && HexValue(b) >= 0
    ensures Strtol([a, b]) == HexValue(a) * 16 + HexValue(b)
  {
    hide Digits;
    assert [a, b] == [a] + [b] && [b] == [b] + [];
    DigitsAdd(a, [b], 0);
    DigitsAdd(b, [], HexValue(a));
    NoDigits(HexValue(a) * 16 + HexValue(b));
  }

  lemma NoDigits(acc: nat)
    ensures Digits([], acc) == acc
  {
  }

  lemma {:induction false} FromHexUndoesToHex(v: bytes)
    ensures FromHex(ToHex(v)) == v
    ensures IsLowerHex(ToHex(v))
  {
    hide Strtol, Digits;
    if v != [] {
      var s := ToHex(v);
      FromHexUndoesToHex(v[1..]);
      TwoDigits(s[0], s[1]);
      assert s[..2] == [s[0], s[1]] && s[2..] == ToHex(v[1..]);
    }
  }

  /** Text comes back from its bytes exactly when it is lower-case digits, an even number of them. */
  lemma ToHexUndoesFromHexIff(s: bytes)
    ensures ToHex(FromHex(s)) == s <==> EvenLowerHex(s)
  {
    hide *;
    if EvenLowerHex(s) {
      LowerHexComesBack(s);
    }
    if ToHex(FromHex(s)) == s {
      HexIsEvenLower(FromHex(s), s);
    }
  }

  predicate EvenLowerHex(s: bytes) {
    |s| % 2 == 0 && IsLowerHex(s)
  }

  lemma HexIsEvenLower(v: bytes, s: bytes)
    requires s == ToHex(v)
    ensures EvenLowerHex(s)
  {
    hide ToHex;
    FromHexUndoesToHex(v);
  }

  lemma LowerHexComesBack(s: bytes)
    requires EvenLowerHex(s)
    ensures ToHex(FromHex(s)) == s
  {
    hide ToHex, FromHex;
    EitherCase(s);
  }

  lemma NoHex()
    ensures ToHex([]) == []
  {
  }

  lemma HexOfMore(b: byte, v: bytes)
    ensures ToHex([b] + v) == [HexDigit(b / 16), HexDigit(b % 16)] + ToHex(v)
  {
    assert ([b] + v)[1..] == v;
  }

  method BinaryToHex(v: bytes) returns (s: bytes)
    ensures s == ToHex(v)
  {
    s := [];
    for i := 0 to |v|
      invariant s + ToHex(v[i..]) == ToHex(v)
    {
      var next := [HexDigit(v[i] / 16), HexDigit(v[i] % 16)];
      assert v[i..][1..] == v[i + 1..];
      assert s + (next + ToHex(v[i + 1..])) == (s + next) + ToHex(v[i + 1..]);
      s := s + next;
    }
  }

  method HexToBinary(s: bytes) returns (v: bytes)
    ensures v == FromHex(s)
  {
    hide FromHex, Strtol;
    v := [];
    var i, end := 0, 0;
    while i < |s|
      invariant 0 <= i <= |s| + 1 && end == if i <= |s| then i else |s|
      invariant v + FromHex(s[end..]) == FromHex(s)
    {
      ghost var rest := s[end..];
      end := if i + 2 <= |s| then i + 2 else |s|;
      var b := Strtol(s[i..end]) % 256;
      StepHex(s, i, end, b);
      assert v + FromHex(rest) == (v + [b]) + FromHex(s[end..]);
      v := v + [b];
      i := i + 2;
    }
    NothingToRead(s[end..]);
  }

  lemma FromTwo(a: byte, b: byte, rest: bytes)
    ensures FromHex([a, b] + rest) == [Strtol([a, b]) % 256] + FromHex(rest)
  {
    var s := [a, b] + rest;
    assert s[..2] == [a, b] && s[2..] == rest;
  }

  /** Digits of either case give the same bytes: their text is the lower-case one. */
  lemma {:induction false} EitherCase(s: bytes)
    requires |s| % 2 == 0 && forall i :: 0 <= i < |s| ==> HexValue(s[i]) >= 0
    ensures ToHex(FromHex(s)) == seq(|s|, i requires 0 <= i < |s| => ToLower(s[i]))
  {
    hide Strtol, Digits, ToHex, FromHex, HexDigit, HexValue, ToLower;
    var lower: bytes := seq(|s|, i requires 0 <= i < |s| => ToLower(s[i]));
    if s == [] {
      NothingToRead(s);
      NoHex();
    } else {
      var a, b, rest := s[0], s[1], s[2..];
      assert s == [a, b] + rest;
      FromTwo(a, b, rest);
      TwoDigits(a, b);
      EitherCase(rest);
      PairIsLower(a, b);
      HexOfMore(HexValue(a) * 16 + HexValue(b), FromHex(rest));
      assert lower == [ToLower(a), ToLower(b)] + lower[2..];
    }
  }

  lemma PairIsLower(a: byte, b: byte)
    requires HexValue(a) >= 0 && HexValue(b) >= 0
    ensures
      var v := HexValue(a) * 16 + HexValue(b);
      v % 256 == v && HexDigit(v / 16) == ToLower(a) && HexDigit(v % 16) == ToLower(b)
  {
    LowerDigit(a);
    LowerDigit(b);
  }

  lemma LowerDigit(c: byte)
    requires HexValue(c) >= 0
    ensures HexDigit(HexValue(c)) == ToLower(c)
  {
  }

  lemma NothingToRead(s: bytes)
    requires s == []
    ensures FromHex(s) == []
  {
  }

  lemma StepHex(s: bytes, i: nat, end: nat, b: byte)
    requires i < |s| && end == (if i + 2 <= |s| then i + 2 else |s|)
    requires b == Strtol(s[i..end]) % 256
    ensures FromHex(s[i..]) == [b] + FromHex(s[end..])
  {
    hide Strtol;
    var t := s[i..];
    if |t| == 1 {
      assert t == s[i..end];
    } else {
      assert t[..2] == s[i..end] && t[2..] == s[end..];
    }
  }
}
