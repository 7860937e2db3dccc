/** Byte strings, big- and little-endian integers, and the result types the other modules share. */
module Bytes {

  type byte = x: int | 0 <= x < 256

  type bytes = seq<byte>

  datatype Option<+T> = None | Some(value: T)

  datatype Result<+T, +E> = Ok(value: T) | Err(error: E) {
    predicate IsFailure() {
      Err?
    }

    function PropagateFailure<U>(): Result<U, E>
      requires Err?
    {
      Err(error)
    }

    function Extract(): T
      requires Ok?
    {
      value
    }
  }

  function Zeros(n: nat): (z: bytes)
    ensures |z| == n
  {
    seq(n, _ => 0)
  }

  /** The bytes of an ASCII literal; a character outside ASCII becomes a NUL. */
  function Ascii(s: string): (b: bytes)
    ensures |b| == |s|
  {
    seq(|s|, i requires 0 <= i < |s| => if s[i] < 128 as char then s[i] as int else 0)
  }

  /** tolower in the classic locale. */
  function ToLower(c: byte): byte {
    if 'A' as int <= c <= 'Z' as int then c + 32 else c
  }

  /** Copies bytes into a buffer, behind those before the place. */
  method Store(s: bytes, a: array<byte>, at: nat)
    requires at + |s| <= a.Length
    modifies a
    ensures a[..at + |s|] == old(a[..at]) + s
  {
    forall i | 0 <= i < |s| {
      a[at + i] := s[i];
    }
  }

  // ---------- integers held in byte strings ----------

  function BigEndian(s: bytes): nat {
    if s == [] then 0 else BigEndian(s[..|s| - 1]) * 256 + s[|s| - 1]
  }

  function LittleEndian(s: bytes): nat {
    if s == [] then 0 else LittleEndian(s[1..]) * 256 + s[0]
  }

  function Reverse(s: bytes): (r: bytes)
    ensures |r| == |s|
  {
    seq(|s|, i requires 0 <= i < |s| => s[|s| - 1 - i])
  }

  /** Reversing a byte string turns its little-endian integer into the same big-endian one. */
  lemma {:induction false} ReversedEndian(s: bytes)
    ensures BigEndian(Reverse(s)) == LittleEndian(s)
  {
    if s != [] {
      assert Reverse(s)[..|s| - 1] == Reverse(s[1..]);
      ReversedEndian(s[1..]);
    }
  }

  /** Padding on the left with zeros keeps the big-endian integer. */
  lemma {:induction false} LeftPadKeepsInteger(n: nat, s: bytes)
    ensures BigEndian(Zeros(n) + s) == BigEndian(s)
  {
    if s != [] {
      assert (Zeros(n) + s)[..|s| + n - 1] == Zeros(n) + s[..|s| - 1];
      LeftPadKeepsInteger(n, s[..|s| - 1]);
    } else if n > 0 {
      assert Zeros(n) + s == Zeros(n);
      assert Zeros(n)[..n - 1] == Zeros(n - 1) + [];
      LeftPadKeepsInteger(n - 1, []);
    }
  }

  // ---------- trailing zero bytes ----------

  /** The string without its maximal run of trailing zero bytes. */
  function TrimRight(s: bytes): (r: bytes)
    ensures r <= s
    ensures r == [] || r[|r| - 1] != 0
    ensures forall i :: |r| <= i < |s| ==> s[i] == 0
  {
    if s == [] || s[|s| - 1] != 0 then s else TrimRight(s[..|s| - 1])
  }

  lemma {:induction false} TrimAppendedZeros(s: bytes, n: nat)
    ensures TrimRight(s + Zeros(n)) == TrimRight(s)
  {
    if n == 0 {
      assert s + Zeros(n) == s;
    } else {
      assert (s + Zeros(n))[..|s| + n - 1] == s + Zeros(n - 1);
      TrimAppendedZeros(s, n - 1);
    }
  }

  lemma TrimIsIdentityIff(s: bytes)
    ensures TrimRight(s) == s <==> s == [] || s[|s| - 1] != 0
  {
  }
}
