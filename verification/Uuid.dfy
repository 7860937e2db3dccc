/** The text of the system UUID: its first three fields as numbers, the rest byte by byte. */
module Uuid {
  import opened Bytes
  import opened Hex
  import Smbios

  const DASH: byte := '-' as int
  const ZERO: byte := '0' as int

  // ---------- printing numbers ----------

  function UpperDigit(d: nat): byte
    requires d < 16
  {
    if d < 10 then '0' as int + d else 'A' as int + d - 10
  }

  /** A number in base 16, without leading zeros. */
  function HexNumber(n: nat): (s: bytes)
    ensures s != []
  {
    if n < 16 then [UpperDigit(n)] else HexNumber(n / 16) + [UpperDigit(n % 16)]
  }

  function Fill(n: nat): (s: bytes)
    ensures |s| == n
  {
    seq(n, _ => ZERO)
  }

  /** Right-justified in a field of at least that width, filled with '0'. */
  function Setw(w: nat, s: bytes): (r: bytes)
    ensures |r| == if |s| < w then w else |s|
  {
    if |s| < w then Fill(w - |s|) + s else s
  }

  function Lowered(s: bytes): (r: bytes)
    ensures |r| == |s|
  {
    seq(|s|, i requires 0 <= i < |s| => ToLower(s[i]))
  }

  lemma LoweredAppend(s: bytes, t: bytes)
    ensures Lowered(s + t) == Lowered(s) + Lowered(t)
  {
  }

  /** The digits of a number in a field of exactly that width. */
  function Fixed(n: nat, w: nat): (s: bytes)
    ensures |s| == w
  {
    if w == 0 then [] else Fixed(n / 16, w - 1) + [UpperDigit(n % 16)]
  }

  function Pow16(n: nat): (p: nat)
    ensures p > 0
  {
    if n == 0 then 1 else 16 * Pow16(n - 1)
  }

  lemma {:induction false} FixedZero(w: nat)
    ensures Fixed(0, w) == Fill(w)
  {
    if w > 0 {
      FixedZero(w - 1);
      assert Fill(w - 1) + [ZERO] == Fill(w);
    }
  }

  lemma {:induction false} SetwIsFixed(n: nat, w: nat)
    requires w > 0 && n < Pow16(w)
    ensures Setw(w, HexNumber(n)) == Fixed(n, w)
  {
    if n < 16 {
      FixedZero(w - 1);
      assert w == 1 ==> Fill(0) + HexNumber(n) == HexNumber(n);
    } else {
      assert w > 1 by {
        assert Pow16(0) == 1;
      }
      SetwIsFixed(n / 16, w - 1);
      FillBefore(w - 1, HexNumber(n / 16), UpperDigit(n % 16));
    }
  }

  lemma FillBefore(w: nat, s: bytes, d: byte)
    ensures Setw(w + 1, s + [d]) == Setw(w, s) + [d]
  {
  }

  lemma {:induction false} ToHexSnoc(s: bytes, b: byte)
    ensures ToHex(s + [b]) == ToHex(s) + [HexDigit(b / 16), HexDigit(b % 16)]
  {
    if s == [] {
      assert [] + [b] == [b];
      HexOfMore(b, []);
      NoHex();
      assert [b] + [] == [b];
    } else {
      ToHexSnoc(s[1..], b);
      HexOfMore(s[0], s[1..]);
      HexOfMore(s[0], s[1..] + [b]);
      assert s == [s[0]] + s[1..];
      assert s + [b] == [s[0]] + (s[1..] + [b]);
    }
  }

  /** Printing the big-endian integer of some bytes in a field of twice as many digits is their hexadecimal text. */
  lemma {:induction false} FixedIsHex(s: bytes)
    ensures Lowered(Fixed(BigEndian(s), 2 * |s|)) == ToHex(s)
    ensures BigEndian(s) < Pow16(2 * |s|)
  {
    if s != [] {
      var front, b := s[..|s| - 1], s[|s| - 1];
      FixedIsHex(front);
      assert s == front + [b];
      ToHexSnoc(front, b);
      TwoMoreDigits(BigEndian(front), b, 2 * |front|);
    } else {
      NoHex();
    }
  }

  lemma TwoMoreDigits(v: nat, b: byte, w: nat)
    ensures Lowered(Fixed(v * 256 + b, w + 2)) == Lowered(Fixed(v, w)) + [HexDigit(b / 16), HexDigit(b % 16)]
    ensures Pow16(w + 2) == 256 * Pow16(w)
  {
    hide Lowered;
    Nibbles(v, b);
    var front, hi, lo := Fixed(v, w), [UpperDigit(b / 16)], [UpperDigit(b % 16)];
    LoweredAppend(front + hi, lo);
    LoweredAppend(front, hi);
    LoweredDigit(b / 16);
    LoweredDigit(b % 16);
    assert Pow16(w + 2) == 16 * Pow16(w + 1);
  }

  lemma Nibbles(v: nat, b: byte)
    ensures
      var n := v * 256 + b;
      n / 16 == v * 16 + b / 16 && n % 16 == b % 16 && (n / 16) / 16 == v && (n / 16) % 16 == b / 16
  {
  }

  lemma LoweredDigit(d: nat)
    requires d < 16
    ensures Lowered([UpperDigit(d)]) == [HexDigit(d)]
  {
  }

  /** One printed field, lower-cased. */
  lemma PrintedField(s: bytes)
    requires s != []
    ensures Lowered(Setw(2 * |s|, HexNumber(BigEndian(s)))) == ToHex(s)
  {
    hide *;
    FixedIsHex(s);
    SetwIsFixed(BigEndian(s), 2 * |s|);
  }

  // ---------- the text ----------

  /** The text: the number fields are little-endian in memory, so their bytes appear reversed. */
  function Text(u: bytes): (t: bytes)
    requires |u| == 16
    ensures |t| == 36
  {
    ToHex(Reverse(u[..4])) + [DASH] + ToHex(Reverse(u[4..6])) + [DASH] + ToHex(Reverse(u[6..8])) + [DASH]
    + ToHex(u[8..10]) + [DASH] + ToHex(u[10..])
  }

  /** The bytes of such a text. */
  function OfText(t: bytes): bytes
    requires |t| == 36
  {
    Reverse(FromHex(t[..8])) + Reverse(FromHex(t[9..13])) + Reverse(FromHex(t[14..18]))
    + FromHex(t[19..23]) + FromHex(t[24..])
  }

  lemma ReverseTwice(s: bytes)
    ensures Reverse(Reverse(s)) == s
  {
  }

  lemma TextFields(a: bytes, b: bytes, c: bytes, d: bytes, e: bytes)
    requires |a| == 8 && |b| == |c| == |d| == 4 && |e| == 12
    ensures
      var t := a + [DASH] + b + [DASH] + c + [DASH] + d + [DASH] + e;
      |t| == 36 && t[..8] == a && t[9..13] == b && t[14..18] == c && t[19..23] == d && t[24..] == e
  {
  }

  /** The text determines the UUID: two systems have the same text only if they have the same UUID. */
  lemma OfTextUndoesText(u: bytes)
    requires |u| == 16
    ensures OfText(Text(u)) == u
  {
    hide ToHex, FromHex, Reverse;
    var a, b, c, d, e := Reverse(u[..4]), Reverse(u[4..6]), Reverse(u[6..8]), u[8..10], u[10..];
    TextFields(ToHex(a), ToHex(b), ToHex(c), ToHex(d), ToHex(e));
    FromHexUndoesToHex(a);
    FromHexUndoesToHex(b);
    FromHexUndoesToHex(c);
    FromHexUndoesToHex(d);
    FromHexUndoesToHex(e);
    ReverseTwice(u[..4]);
    ReverseTwice(u[4..6]);
    ReverseTwice(u[6..8]);
    assert u == u[..4] + u[4..6] + u[6..8] + u[8..10] + u[10..];
  }

  lemma NumberField(s: bytes)
    requires s != []
    ensures Lowered(Setw(2 * |s|, HexNumber(LittleEndian(s)))) == ToHex(Reverse(s))
  {
    hide ToHex, HexNumber, BigEndian, LittleEndian;
    ReversedEndian(s);
    PrintedField(Reverse(s));
  }

  lemma ByteField(b: byte)
    ensures Lowered(Setw(2, HexNumber(b))) == ToHex([b])
  {
    hide ToHex, HexNumber, Setw;
    assert BigEndian([b]) == b by {
      assert [b][..0] == [];
    }
    PrintedField([b]);
  }

  /** The number fields and the first two bytes, as printed. */
  method FormatFront(uuid: bytes) returns (t: bytes)
    requires |uuid| == 16
    ensures Lowered(t) == Front(uuid)
  {
    hide ToHex, HexNumber, Setw, LittleEndian, Lowered;
    DashIsLower();
    t := Setw(8, HexNumber(LittleEndian(uuid[..4])));
    NumberField(uuid[..4]);
    LoweredAppend(t, [DASH]);
    t := t + [DASH];
    t := AppendField(t, uuid[4..6]);
    t := AppendField(t, uuid[6..8]);
    ghost var first := t;
    t := AppendByte(t, uuid[8]);
    t := AppendByte(t, uuid[9]);
    LoweredAppend(t, [DASH]);
    t := t + [DASH];
    OneMoreByte(Lowered(first), [uuid[8]], uuid[9]);
    assert uuid[8..10] == [uuid[8]] + [uuid[9]];
  }

  function Front(u: bytes): bytes
    requires |u| == 16
  {
    ToHex(Reverse(u[..4])) + [DASH] + ToHex(Reverse(u[4..6])) + [DASH] + ToHex(Reverse(u[6..8])) + [DASH]
    + ToHex(u[8..10]) + [DASH]
  }

  /** Prints a two-byte number field and a dash behind what is there. */
  method AppendField(t: bytes, field: bytes) returns (r: bytes)
    requires |field| == 2
    ensures Lowered(r) == Lowered(t) + ToHex(Reverse(field)) + [DASH]
  {
    hide ToHex, HexNumber, Setw, LittleEndian, Lowered;
    var printed := Setw(4, HexNumber(LittleEndian(field)));
    NumberField(field);
    DashIsLower();
    LoweredAppend(t, printed);
    LoweredAppend(t + printed, [DASH]);
    return t + printed + [DASH];
  }

  method AppendByte(t: bytes, b: byte) returns (r: bytes)
    ensures Lowered(r) == Lowered(t) + ToHex([b])
  {
    hide ToHex, HexNumber, Setw, Lowered;
    ByteField(b);
    LoweredAppend(t, Setw(2, HexNumber(b)));
    return t + Setw(2, HexNumber(b));
  }

  lemma OneMoreByte(t: bytes, s: bytes, b: byte)
    ensures t + ToHex(s) + ToHex([b]) == t + ToHex(s + [b])
  {
    hide ToHex;
    ToHexSnoc(s, b);
    ToHexSnoc([], b);
    NoHex();
    assert [] + [b] == [b];
  }

  /** Prints the struct field by field; no structure found prints nothing. */
  method FormatUuid(uuid: bytes, size: nat) returns (t: bytes)
    requires size != 0 ==> |uuid| == 16
    ensures size == 0 ==> t == []
    ensures size != 0 ==> Lowered(t) == Text(uuid)
  {
    hide ToHex, HexNumber, Setw, Lowered, Front;
    if size == 0 {
      return [];
    }
    t := FormatFront(uuid);
    NoHex();
    assert uuid[10..10] == [];
    for i := 2 to 8
      invariant Lowered(t) == Front(uuid) + ToHex(uuid[10..8 + i])
    {
      OneMoreByte(Front(uuid), uuid[10..8 + i], uuid[8 + i]);
      assert uuid[10..8 + i] + [uuid[8 + i]] == uuid[10..8 + (i + 1)];
      t := AppendByte(t, uuid[8 + i]);
    }
    assert uuid[10..16] == uuid[10..];
    FrontAndNode(uuid);
  }

  lemma FrontAndNode(u: bytes)
    requires |u| == 16
    ensures Text(u) == Front(u) + ToHex(u[10..])
  {
  }

  lemma DashIsLower()
    ensures Lowered([DASH]) == [DASH]
  {
  }

  /** From the bytes read to the text; None where reading them is undefined. */
  function TextOfRead(u: Option<bytes>): Option<bytes>
    requires u.Some? ==> |u.value| == 16
  {
    if u.None? then None else Some(Text(u.value))
  }

  /**
   From the firmware table to the lower-case text, on every table: no text for no table, and None
   where the code would read outside it, there being no structure or too short a rest of the table.
   */
  method GetSystemUuid(table: array?<byte>) returns (t: Option<bytes>)
    ensures table == null ==> t == Some([])
    ensures table != null ==> t == TextOfRead(Smbios.UuidRead(table[..]))
  {
    hide Smbios.FindSystemInfo, Text, Lowered;
    if table == null {
      var nothing := FormatUuid([], 0);
      assert Lowered(nothing) == [];
      return Some(Lowered(nothing));
    }
    var offset := Smbios.UuidOffset(table);
    assert |table[..]| == table.Length;
    if offset.None? || offset.value + 16 > table.Length {
      return None;
    }
    assert table[..][offset.value..offset.value + 16] == table[offset.value..offset.value + 16];
    var printed := FormatUuid(table[offset.value..offset.value + 16], 16);
    return Some(Lowered(printed));
  }

  /** On a table of well-formed structures: the text of the first one's UUID, which it determines. */
  lemma SystemUuidOnTable(ss: seq<Smbios.Structure>, after: bytes, k: nat)
    requires Smbios.AllWellFormed(ss) && Smbios.FirstSystemInfo(ss) == Some(k) && |ss[k].body| >= 20
    ensures
      var t := TextOfRead(Smbios.UuidRead(Smbios.Table(ss) + after));
      t == Some(Text(ss[k].body[4..20])) && OfText(t.value) == ss[k].body[4..20]
  {
    hide Smbios.UuidRead, Smbios.Table, Smbios.FirstSystemInfo, Text, OfText;
    Smbios.UuidReadOnTable(ss, after, k);
    OfTextUndoesText(ss[k].body[4..20]);
  }
}
