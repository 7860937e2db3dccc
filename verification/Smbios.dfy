/** Walking the SMBIOS structure table to the system information structure, and its UUID. */
module Smbios {
  import opened Bytes

  const HEADER: nat := 4
  const SYSTEM_INFO: byte := 1
  const UUID_OFFSET: nat := 8
  const UUID_SIZE: nat := 16

  // ---------- what the walk computes ----------

  /** The position just past the first double NUL at or after i. */
  function PastDoubleNull(t: bytes, i: nat): (r: Option<nat>)
    ensures r.Some? ==> i + 2 <= r.value <= |t| && t[r.value - 2] == 0 && t[r.value - 1] == 0
    decreases |t| - i
  {
    if i + 1 >= |t| then None
    else if t[i] == 0 && t[i + 1] == 0 then Some(i + 2)
    else PastDoubleNull(t, i + 1)
  }

  /** Follows structures from i to the first of type 1; a table that ends early has none. */
  function FindSystemInfo(t: bytes, i: nat): (r: Option<nat>)
    ensures r.Some? ==> i <= r.value && r.value + HEADER < |t| && t[r.value] == SYSTEM_INFO
    decreases |t| - i
  {
    if i + HEADER >= |t| then None
    else if t[i] == SYSTEM_INFO then Some(i)
    else
      var next := PastDoubleNull(t, i + t[i + 1]);
      if next.None? then None else FindSystemInfo(t, next.value)
  }

  /** The nested loops over the firmware's buffer; every index stays inside the table. */
  method WalkTable(table: array<byte>) returns (structure: Option<nat>)
    ensures structure == FindSystemInfo(table[..], 0)
  {
    hide PastDoubleNull;
    var i: nat := 0;
    structure := None;
    var properTermination := true;
    ghost var t := table[..];
    while properTermination && structure == None
      invariant structure.Some? ==> structure == FindSystemInfo(t, 0)
      invariant structure.None? ==>
        FindSystemInfo(t, 0) == if properTermination then FindSystemInfo(t, i) else None
      decreases properTermination, table.Length - i
    {
      properTermination := false;
      if i + HEADER < table.Length {
        if table[i] == SYSTEM_INFO {
          structure := Some(i);
        }
        i := i + table[i + 1];
        properTermination, i := FindDoubleNull(table, i);
      }
    }
  }

  /** The inner loop: to just past the double NUL that ends the structure, if there is one. */
  method FindDoubleNull(table: array<byte>, start: nat) returns (properTermination: bool, i: nat)
    ensures PastDoubleNull(table[..], start) == if properTermination then Some(i) else None
    ensures i >= start
  {
    i := start;
    while i + 1 < table.Length
      invariant i >= start
      invariant PastDoubleNull(table[..], start) == PastDoubleNull(table[..], i)
    {
      if table[i] == 0 && table[i + 1] == 0 {
        return true, i + 2;
      }
      i := i + 1;
    }
    return false, i;
  }

  /** The sixteen bytes at the reported place; None if there is none, or they run past the table. */
  function UuidRead(t: bytes): (u: Option<bytes>)
    ensures u.Some? ==> |u.value| == UUID_SIZE
  {
    var s := FindSystemInfo(t, 0);
    if s.Some? && s.value + UUID_OFFSET + UUID_SIZE <= |t| then
      Some(t[s.value + UUID_OFFSET..s.value + UUID_OFFSET + UUID_SIZE])
    else
      None
  }

  /** The offset of the UUID, when the table has a system information structure; nothing checks its range. */
  method UuidOffset(table: array<byte>) returns (offset: Option<nat>)
    ensures var s := FindSystemInfo(table[..], 0);
      offset == if s.Some? then Some(s.value + UUID_OFFSET) else None
    ensures offset.Some? && offset.value + UUID_SIZE <= table.Length <==> UuidRead(table[..]).Some?
  {
    var s := WalkTable(table);
    offset := if s.Some? then Some(s.value + UUID_OFFSET) else None;
  }

  // ---------- well-formed tables: sections 6.1.2 and 6.1.3 of DMTF DSP0134 ----------

  /** A header and formatted area, then the unformatted strings. */
  datatype Structure = Structure(kind: byte, handle: (byte, byte), body: bytes, strings: seq<bytes>) {
    ghost predicate WellFormed() {
      && HEADER + |body| < 256
      && forall i :: 0 <= i < |strings| ==> IsString(strings[i])
    }
  }

  predicate IsString(s: bytes) {
    s != [] && 0 !in s
  }

  /** NUL-terminated strings, closed by one more NUL; two NULs when there are none. */
  function StringSet(strings: seq<bytes>): (b: bytes) {
    if strings == [] then [0, 0] else Terminated(strings) + [0]
  }

  function Terminated(strings: seq<bytes>): (b: bytes) {
    if strings == [] then [] else strings[0] + [0] + Terminated(strings[1..])
  }

  function Serialize(s: Structure): (b: bytes)
    requires HEADER + |s.body| < 256
    ensures |b| >= HEADER + |s.body| + 2
  {
    TerminatedLength(s.strings);
    [s.kind, HEADER + |s.body|, s.handle.0, s.handle.1] + s.body + StringSet(s.strings)
  }

  lemma TerminatedLength(strings: seq<bytes>)
    ensures strings != [] ==> |Terminated(strings)| >= 1
  {
  }

  ghost predicate AllWellFormed(ss: seq<Structure>) {
    forall i :: 0 <= i < |ss| ==> ss[i].WellFormed()
  }

  ghost function Table(ss: seq<Structure>): bytes
    requires AllWellFormed(ss)
  {
    if ss == [] then [] else Serialize(ss[0]) + Table(ss[1..])
  }

  /** The index of the first type 1 structure. */
  ghost function FirstSystemInfo(ss: seq<Structure>): (k: Option<nat>)
    ensures k.Some? ==> k.value < |ss| && ss[k.value].kind == SYSTEM_INFO
    ensures k.Some? ==> forall i :: 0 <= i < k.value ==> ss[i].kind != SYSTEM_INFO
    ensures k.None? ==> forall i :: 0 <= i < |ss| ==> ss[i].kind != SYSTEM_INFO
  {
    if ss == [] then None
    else if ss[0].kind == SYSTEM_INFO then Some(0)
    else
      var k := FirstSystemInfo(ss[1..]);
      if k.None? then None else Some(k.value + 1)
  }

  /** The bytes b lie in t at position i. */
  ghost predicate Lies(t: bytes, i: nat, b: bytes) {
    i + |b| <= |t| && t[i..i + |b|] == b
  }

  lemma LiesSplit(t: bytes, i: nat, a: bytes, b: bytes)
    ensures Lies(t, i, a + b) <==> Lies(t, i, a) && Lies(t, i + |a|, b)
  {
    if Lies(t, i, a + b) {
      var whole := t[i..i + |a + b|];
      assert t[i..i + |a|] == whole[..|a|];
      assert t[i + |a|..i + |a| + |b|] == whole[|a|..];
    }
    if Lies(t, i, a) && Lies(t, i + |a|, b) {
      assert t[i..i + |a + b|] == t[i..i + |a|] + t[i + |a|..i + |a| + |b|];
    }
  }

  lemma LiesAt(t: bytes, i: nat, b: bytes, k: nat)
    requires Lies(t, i, b) && k < |b|
    ensures t[i + k] == b[k]
  {
    assert t[i..i + |b|][k] == b[k];
  }

  /** Inside a string no double NUL starts. */
  lemma {:induction false} ScanString(t: bytes, i: nat, s: bytes)
    requires Lies(t, i, s) && 0 !in s && i + |s| < |t|
    ensures PastDoubleNull(t, i) == PastDoubleNull(t, i + |s|)
    decreases s
  {
    if s != [] {
      LiesAt(t, i, s, 0);
      assert s == [s[0]] + s[1..];
      LiesSplit(t, i, [s[0]], s[1..]);
      ScanString(t, i + 1, s[1..]);
    }
  }

  /** The scan stops exactly at the end of the strings. */
  lemma {:induction false} ScanTerminated(t: bytes, i: nat, strings: seq<bytes>)
    requires strings != [] && forall k :: 0 <= k < |strings| ==> IsString(strings[k])
    requires Lies(t, i, Terminated(strings) + [0])
    ensures PastDoubleNull(t, i) == Some(i + |Terminated(strings)| + 1)
    decreases strings
  {
    hide PastDoubleNull, Terminated, Lies;
    assert IsString(strings[0]);
    TerminatedFirst(strings);
    var s, rest := strings[0], Terminated(strings[1..]);
    assert Terminated(strings) + [0] == s + ([0] + (rest + [0]));
    ScanOne(t, i, s, rest + [0]);
    if strings[1..] != [] {
      assert IsString(strings[1]);
      TerminatedFirst(strings[1..]);
      ScanTerminated(t, i + |s| + 1, strings[1..]);
    }
  }

  /** One string and its NUL are passed over; a second NUL ends the scan. */
  lemma ScanOne(t: bytes, i: nat, s: bytes, rest: bytes)
    requires Lies(t, i, s + ([0] + rest)) && 0 !in s && rest != []
    ensures Lies(t, i + |s| + 1, rest)
    ensures
      PastDoubleNull(t, i) ==
      if rest[0] == 0 then Some(i + |s| + 2) else PastDoubleNull(t, i + |s| + 1)
  {
    hide PastDoubleNull;
    var j := i + |s|;
    LiesSplit(t, i, s, [0] + rest);
    LiesSplit(t, j, [0], rest);
    LiesAt(t, j, [0], 0);
    LiesAt(t, j + 1, rest, 0);
    ScanString(t, i, s);
    StepOrStop(t, j);
  }

  lemma TerminatedFirst(strings: seq<bytes>)
    requires strings != [] && strings[0] != []
    ensures Terminated(strings) == strings[0] + [0] + Terminated(strings[1..])
    ensures Terminated(strings)[0] == strings[0][0]
    ensures Terminated([]) == []
  {
  }

  lemma StepOrStop(t: bytes, i: nat)
    requires i + 1 < |t| && t[i] == 0
    ensures PastDoubleNull(t, i) == if t[i + 1] == 0 then Some(i + 2) else PastDoubleNull(t, i + 1)
  {
  }

  lemma ScanStringSet(t: bytes, i: nat, strings: seq<bytes>)
    requires forall k :: 0 <= k < |strings| ==> IsString(strings[k])
    requires Lies(t, i, StringSet(strings))
    ensures PastDoubleNull(t, i) == Some(i + |StringSet(strings)|)
  {
    if strings == [] {
      LiesAt(t, i, [0, 0], 0);
      LiesAt(t, i, [0, 0], 1);
    } else {
      ScanTerminated(t, i, strings);
    }
  }

  lemma SerializedParts(s: Structure)
    requires s.WellFormed()
    ensures Serialize(s)[..HEADER + |s.body|] + StringSet(s.strings) == Serialize(s)
    ensures Serialize(s)[0] == s.kind && Serialize(s)[1] == HEADER + |s.body|
    ensures Serialize(s)[HEADER..HEADER + |s.body|] == s.body
  {
  }

  /** A structure that is not of type 1 is skipped exactly. */
  lemma SkipStructure(t: bytes, i: nat, s: Structure)
    requires s.WellFormed() && s.kind != SYSTEM_INFO && Lies(t, i, Serialize(s))
    ensures FindSystemInfo(t, i) == FindSystemInfo(t, i + |Serialize(s)|)
  {
    hide Serialize, StringSet, PastDoubleNull, FindSystemInfo;
    var n := HEADER + |s.body|;
    SerializedParts(s);
    LiesAt(t, i, Serialize(s), 0);
    LiesAt(t, i, Serialize(s), 1);
    LiesSplit(t, i, Serialize(s)[..n], StringSet(s.strings));
    ScanStringSet(t, i + n, s.strings);
    FindNext(t, i, i + |Serialize(s)|);
  }

  lemma FindNext(t: bytes, i: nat, next: nat)
    requires i + HEADER < |t| && t[i] != SYSTEM_INFO && PastDoubleNull(t, i + t[i + 1]) == Some(next)
    ensures FindSystemInfo(t, i) == FindSystemInfo(t, next)
  {
  }

  /** On a table serialised from structures the walk returns the first of type 1, wherever the table lies. */
  lemma {:induction false} WalkFindsFirst(t: bytes, i: nat, ss: seq<Structure>)
    requires AllWellFormed(ss) && Lies(t, i, Table(ss))
    ensures var k := FirstSystemInfo(ss);
      FindSystemInfo(t, i) ==
        if k.Some? then Some(i + |Table(ss[..k.value])|) else FindSystemInfo(t, i + |Table(ss)|)
    decreases ss
  {
    hide FindSystemInfo, Serialize;
    if ss != [] {
      var b := Serialize(ss[0]);
      LiesSplit(t, i, b, Table(ss[1..]));
      if ss[0].kind == SYSTEM_INFO {
        FoundHere(t, i, ss[0]);
        assert ss[..0] == [];
      } else {
        SkipStructure(t, i, ss[0]);
        WalkFindsFirst(t, i + |b|, ss[1..]);
        var k := FirstSystemInfo(ss);
        if k.Some? {
          assert ss[..k.value][1..] == ss[1..][..k.value - 1];
        }
      }
    }
  }

  lemma FoundHere(t: bytes, i: nat, s: Structure)
    requires s.WellFormed() && s.kind == SYSTEM_INFO && Lies(t, i, Serialize(s))
    ensures FindSystemInfo(t, i) == Some(i)
  {
    LiesAt(t, i, Serialize(s), 0);
  }

  lemma {:induction false} TableAt(t: bytes, i: nat, ss: seq<Structure>, k: nat)
    requires AllWellFormed(ss) && k < |ss| && Lies(t, i, Table(ss))
    ensures Lies(t, i + |Table(ss[..k])|, Serialize(ss[k]))
    decreases ss
  {
    hide Serialize;
    LiesSplit(t, i, Serialize(ss[0]), Table(ss[1..]));
    if k == 0 {
      assert ss[..0] == [];
    } else {
      assert ss[..k][1..] == ss[1..][..k - 1];
      TableAt(t, i + |Serialize(ss[0])|, ss[1..], k - 1);
    }
  }

  /** The sixteen bytes at the reported offset are the UUID field of the first type 1 structure. */
  lemma UuidIsFound(ss: seq<Structure>, after: bytes, k: nat)
    requires AllWellFormed(ss) && FirstSystemInfo(ss) == Some(k) && |ss[k].body| >= 20
    ensures var t := Table(ss) + after;
      var s := FindSystemInfo(t, 0);
      s.Some? && Lies(t, s.value + UUID_OFFSET, ss[k].body[4..20])
  {
    hide FindSystemInfo, FirstSystemInfo, Serialize;
    var t := Table(ss) + after;
    assert Lies(t, 0, Table(ss));
    WalkFindsFirst(t, 0, ss);
    TableAt(t, 0, ss, k);
    UuidInside(t, |Table(ss[..k])|, ss[k]);
  }

  lemma UuidInside(t: bytes, o: nat, s: Structure)
    requires s.WellFormed() && |s.body| >= 20 && Lies(t, o, Serialize(s))
    ensures Lies(t, o + UUID_OFFSET, s.body[4..20])
  {
    hide Serialize;
    SerializedParts(s);
    LiesSlice(t, o, Serialize(s), HEADER, HEADER + |s.body|);
    LiesSlice(t, o + HEADER, s.body, 4, 20);
  }

  lemma LiesSlice(t: bytes, i: nat, b: bytes, from: nat, to: nat)
    requires Lies(t, i, b) && from <= to <= |b|
    ensures Lies(t, i + from, b[from..to])
  {
    var a, c, d := b[..from], b[from..to], b[to..];
    assert b == a + (c + d);
    LiesSplit(t, i, a, c + d);
    LiesSplit(t, i + from, c, d);
  }

  /** A structure of nothing but its header, at the end of its table: it is found, but has no UUID to read. */
  lemma ShortTableHasNoUuid()
    ensures
      var t := Serialize(Structure(SYSTEM_INFO, (0, 0), [], []));
      t == [1, 4, 0, 0, 0, 0] && FindSystemInfo(t, 0) == Some(0) && UuidRead(t) == None
  {
  }

  /**
   What is read on a table of well-formed structures: the sixteen bytes eight behind the start of
   the first type 1 structure, whatever they belong to, if the table goes on that far.
   */
  lemma UuidReadOnTable(ss: seq<Structure>, after: bytes, k: nat)
    requires AllWellFormed(ss) && FirstSystemInfo(ss) == Some(k)
    ensures
      var rest := Serialize(ss[k]) + Table(ss[k + 1..]) + after;
      UuidRead(Table(ss) + after) ==
        if |rest| >= UUID_OFFSET + UUID_SIZE then Some(rest[UUID_OFFSET..UUID_OFFSET + UUID_SIZE]) else None
    ensures |ss[k].body| >= 20 ==> UuidRead(Table(ss) + after) == Some(ss[k].body[4..20])
  {
    hide FindSystemInfo, FirstSystemInfo, Serialize, Table;
    var t := Table(ss) + after;
    var o := |Table(ss[..k])|;
    TableSplits(ss, k);
    assert Lies(t, 0, Table(ss));
    WalkFindsFirst(t, 0, ss);
    var rest := Serialize(ss[k]) + Table(ss[k + 1..]) + after;
    assert t == Table(ss[..k]) + rest;
    if |rest| >= UUID_OFFSET + UUID_SIZE {
      assert t[o + UUID_OFFSET..o + UUID_OFFSET + UUID_SIZE] == rest[UUID_OFFSET..UUID_OFFSET + UUID_SIZE];
    }
    if |ss[k].body| >= 20 {
      UuidIsFound(ss, after, k);
    }
  }

  lemma {:induction false} TableSplits(ss: seq<Structure>, k: nat)
    requires AllWellFormed(ss) && k < |ss|
    ensures Table(ss) == Table(ss[..k]) + (Serialize(ss[k]) + Table(ss[k + 1..]))
    decreases ss
  {
    hide Serialize;
    if k == 0 {
      assert ss[..0] == [];
    } else {
      assert ss[..k][1..] == ss[1..][..k - 1] && ss[1..][k..] == ss[k + 1..];
      TableSplits(ss[1..], k - 1);
    }
  }

  /** The bytes read are the structure's own: its strings and all that follows have no part in them. */
  ghost predicate ReadsOwn(s: Structure, u: bytes) {
    forall strings: seq<bytes>, rest: bytes ::
      s.(strings := strings).WellFormed() ==> UuidRead(Serialize(s.(strings := strings)) + rest) == Some(u)
  }

  /** They are exactly when the formatted area is long enough to hold the field. */
  lemma UuidIsOwnIff(s: Structure)
    requires s.WellFormed() && s.kind == SYSTEM_INFO
    ensures (exists u :: ReadsOwn(s, u)) <==> |s.body| >= 20
    ensures |s.body| >= 20 ==> ReadsOwn(s, s.body[4..20])
  {
    if |s.body| >= 20 {
      forall strings: seq<bytes>, rest: bytes | s.(strings := strings).WellFormed()
        ensures UuidRead(Serialize(s.(strings := strings)) + rest) == Some(s.body[4..20])
      {
        ReadAlone(s.(strings := strings), rest);
      }
      assert ReadsOwn(s, s.body[4..20]);
    } else if u :| ReadsOwn(s, u) {
      NotOwn(s, u);
    }
  }

  lemma ReadAlone(s: Structure, rest: bytes)
    requires s.WellFormed() && s.kind == SYSTEM_INFO
    ensures
      var t := Serialize(s) + rest;
      UuidRead(t) == if |t| >= UUID_OFFSET + UUID_SIZE then Some(t[UUID_OFFSET..UUID_OFFSET + UUID_SIZE]) else None
    ensures |s.body| >= 20 ==> UuidRead(Serialize(s) + rest) == Some(s.body[4..20])
  {
    hide Serialize, FindSystemInfo;
    var t := Serialize(s) + rest;
    assert Lies(t, 0, Serialize(s));
    FoundHere(t, 0, s);
    if |s.body| >= 20 {
      UuidInside(t, 0, s);
    }
  }

  /** With a shorter area, other strings or another continuation change what is read. */
  lemma NotOwn(s: Structure, u: bytes)
    requires s.WellFormed() && s.kind == SYSTEM_INFO && |s.body| < 20
    ensures !ReadsOwn(s, u)
  {
    hide UuidRead;
    var bare, named := s.(strings := []), s.(strings := [[1]]);
    var zeros, ones := Zeros(24), seq<byte>(24, _ => 1);
    assert bare.WellFormed() && named.WellFormed();
    ReadAlone(bare, zeros);
    ReadAlone(bare, ones);
    ReadAlone(named, zeros);
    var n := HEADER + |s.body|;
    var a, b, c := Serialize(bare) + zeros, Serialize(bare) + ones, Serialize(named) + zeros;
    assert a[23] == 0;
    assert n <= 21 ==> b[23] == 1;
    OneName();
    assert n > 21 ==> c[n] == 1 && a[n] == 0;
  }

  lemma OneName()
    ensures StringSet([]) == [0, 0] && StringSet([[1]]) == [1, 0, 0]
  {
    assert [[1]][1..] == [];
  }

  // ---------- one step of the walk, on any table ----------

  /** The first pair of NULs at or behind a place. */
  ghost predicate FirstPair(t: bytes, start: nat, j: nat) {
    start <= j && PairAt(t, j) && forall k: nat :: start <= k < j ==> !PairAt(t, k)
  }

  ghost predicate PairAt(t: bytes, k: nat) {
    k + 1 < |t| && t[k] == 0 && t[k + 1] == 0
  }

  lemma {:induction false} FirstPairIff(t: bytes, start: nat, next: nat)
    ensures PastDoubleNull(t, start) == Some(next) <==> next >= 2 && FirstPair(t, start, next - 2)
    ensures PastDoubleNull(t, start) == None ==> forall k: nat :: start <= k ==> !PairAt(t, k)
    decreases |t| - start
  {
    if start + 1 < |t| {
      if PairAt(t, start) {
        assert FirstPair(t, start, start);
      } else {
        FirstPairIff(t, start + 1, next);
        assert next >= 2 ==> (FirstPair(t, start, next - 2) <==> FirstPair(t, start + 1, next - 2));
      }
    }
  }

  /**
   The walk stops where fewer than five bytes are left, or at a byte 1; else it goes on behind the
   first pair of NULs at or behind the place the length byte says, or stops if there is none.
   */
  lemma WalkStep(t: bytes, i: nat, start: nat, j: nat)
    ensures i + 4 >= |t| ==> FindSystemInfo(t, i) == None
    ensures i + 4 < |t| && t[i] == 1 ==> FindSystemInfo(t, i) == Some(i)
    ensures i + 4 < |t| && t[i] != 1 && start == i + t[i + 1] ==>
              && (FirstPair(t, start, j) ==> FindSystemInfo(t, i) == FindSystemInfo(t, j + 2))
              && ((forall k: nat :: !FirstPair(t, start, k)) ==> FindSystemInfo(t, i) == None)
  {
    FirstPairIff(t, start, j + 2);
    var p := PastDoubleNull(t, start);
    if p.Some? {
      FirstPairIff(t, start, p.value);
      assert FirstPair(t, start, p.value - 2);
    }
  }
}
