/** Building key blobs in place: little-endian DWORDs, fields at offsets. */
module Blobs {
  import opened Bytes

  /** The n low bytes of a number, least significant first. */
  function LowBytes(v: nat, n: nat): (d: bytes)
    ensures |d| == n
  {
    if n == 0 then [] else [v % 256] + LowBytes(v / 256, n - 1)
  }

  function Dword(v: nat): (d: bytes)
    ensures |d| == 4
  {
    LowBytes(v, 4)
  }

  function Pow256(n: nat): nat {
    if n == 0 then 1 else 256 * Pow256(n - 1)
  }

  lemma {:induction false} LowBytesHold(v: nat, n: nat)
    requires v < Pow256(n)
    ensures LittleEndian(LowBytes(v, n)) == v
  {
    if n > 0 {
      LowBytesHold(v / 256, n - 1);
      assert LowBytes(v, n)[1..] == LowBytes(v / 256, n - 1);
    }
  }

  lemma {:induction false} LowBytesOfInteger(s: bytes)
    ensures LowBytes(LittleEndian(s), |s|) == s
    ensures LittleEndian(s) < Pow256(|s|)
  {
    if s != [] {
      LowBytesOfInteger(s[1..]);
      LastDigit(LittleEndian(s[1..]), s[0]);
      assert [s[0]] + s[1..] == s;
    }
  }

  lemma LastDigit(v: nat, b: byte)
    ensures (v * 256 + b) % 256 == b && (v * 256 + b) / 256 == v
  {
  }

  lemma DwordRange()
    ensures Pow256(4) == 0x1_0000_0000
  {
    assert Pow256(1) == 256 && Pow256(2) == 0x1_0000 && Pow256(3) == 0x100_0000;
  }

  function Slice(s: bytes, start: nat, size: nat): (r: bytes)
    requires start + size <= |s|
    ensures |r| == size
  {
    s[start..start + size]
  }

  // ---------- writing into a blob ----------

  /** The same bytes with a field written over those at a place. */
  function Overwritten(s: bytes, at: nat, field: bytes): (r: bytes)
    requires at + |field| <= |s|
    ensures |r| == |s|
  {
    s[..at] + field + s[at + |field|..]
  }

  lemma PutBefore(s: bytes, at: nat, b: byte, field: bytes)
    requires at + 1 + |field| <= |s|
    ensures Overwritten(s, at + 1, field)[at := b] == Overwritten(s, at, [b] + field)
  {
  }

  lemma PutAfter(s: bytes, at: nat, field: bytes, i: nat)
    requires at + |field| <= |s| && i < |field|
    ensures Overwritten(s, at, field[..i])[at + i := field[i]] == Overwritten(s, at, field[..i + 1])
  {
  }

  lemma NothingWritten(s: bytes, at: nat)
    requires at <= |s|
    ensures Overwritten(s, at, []) == s && Reverse([]) == []
  {
  }

  method WriteDword(dst: array<byte>, at: nat, v: nat)
    requires at + 4 <= dst.Length
    modifies dst
    ensures dst[..] == Overwritten(old(dst[..]), at, Dword(v))
  {
    hide Overwritten;
    var rest: nat := v;
    ghost var was := dst[..];
    NothingWritten(was, at);
    assert Dword(v)[..0] == [];
    for i := 0 to 4
      invariant dst[..] == Overwritten(was, at, Dword(v)[..i])
      invariant Dword(v)[i..] == LowBytes(rest, 4 - i)
    {
      assert Dword(v)[i..][0] == Dword(v)[i] && Dword(v)[i..][1..] == Dword(v)[i + 1..];
      PutAfter(was, at, Dword(v), i);
      dst[at + i] := rest % 256;
      rest := rest / 256;
    }
    assert Dword(v)[..4] == Dword(v);
  }

  lemma WriteNext(done: bytes, n: nat, field: bytes)
    requires |field| <= n
    ensures Overwritten(done + Zeros(n), |done|, field) == (done + field) + Zeros(n - |field|)
  {
  }

  /** Writes the next header field behind those already there. */
  method AppendDword(dst: array<byte>, at: nat, v: nat, ghost done: bytes)
    requires |done| == at && at + 4 <= dst.Length && dst[..] == done + Zeros(dst.Length - at)
    modifies dst
    ensures dst[..] == (done + Dword(v)) + Zeros(dst.Length - at - 4)
  {
    hide Overwritten, Dword;
    WriteDword(dst, at, v);
    WriteNext(done, dst.Length - at, Dword(v));
  }

  /** Copies a field to a place in the blob. */
  method CopyMemory(dst: array<byte>, at: nat, src: bytes)
    requires at + |src| <= dst.Length
    modifies dst
    ensures dst[..] == Overwritten(old(dst[..]), at, src)
  {
    forall k | 0 <= k < |src| {
      dst[at + k] := src[k];
    }
  }
}
