/**
 The elliptic-curve key blobs of CNG, eight header bytes and then fixed-size slots for X, Y and the
 private scalar, and their conversion from and to the key structures found in DER.
 */
module EccBlob {
  import opened Bytes
  import opened Blobs

  const HEADER: nat := 8
  const UNCOMPRESSED: byte := 4
  const UNKNOWN_ASN: byte := 6
  const UNKNOWN_ASN_2: byte := 7
  const PRIVATE_MAGIC: nat := 0x324B4345  // "ECK2"
  const PUBLIC_MAGIC: nat := 0x314B4345   // "ECK1"

  datatype ImportError =
    | PublicKeyError
    | OutsideSlot  // a copy that would leave its slot in the blob: what follows is undefined

  /** A decoded EC private key: the public bit string, empty when absent, and the scalar. */
  datatype PrivateInfo = PrivateInfo(publicKey: bytes, privateKey: bytes)

  /** The slots of a blob, as its reader finds them. */
  datatype Slots = Slots(magic: nat, x: bytes, y: bytes, d: bytes)

  /** The size of one coordinate of a public bit string; an odd last byte is dropped. */
  function CoordinateSize(publicKey: bytes): (c: nat)
    ensures publicKey != [] ==> 1 + 2 * c <= |publicKey| <= 2 + 2 * c
  {
    if publicKey == [] then 0 else (|publicKey| - 1) / 2
  }

  function X(publicKey: bytes): (x: bytes)
    ensures |x| == CoordinateSize(publicKey)
  {
    if publicKey == [] then [] else Slice(publicKey, 1, CoordinateSize(publicKey))
  }

  function Y(publicKey: bytes): (y: bytes)
    ensures |y| == CoordinateSize(publicKey)
  {
    if publicKey == [] then [] else Slice(publicKey, 1 + CoordinateSize(publicKey), CoordinateSize(publicKey))
  }

  function LeftPad(s: bytes, n: nat): (p: bytes)
    requires |s| <= n
    ensures |p| == n
    ensures BigEndian(p) == BigEndian(s)
  {
    LeftPadKeepsInteger(n - |s|, s);
    Zeros(n - |s|) + s
  }

  /** Reads a private blob by the size its own header declares; the slots must fill it. */
  function ReadPrivate(blob: bytes): (s: Option<Slots>)
    ensures s.Some? ==> |s.value.x| == |s.value.y| == |s.value.d|
  {
    if |blob| < HEADER then
      None
    else
      var n := LittleEndian(Slice(blob, 4, 4));
      if |blob| != HEADER + 3 * n then
        None
      else
        Some(Slots(
               LittleEndian(Slice(blob, 0, 4)),
               Slice(blob, HEADER, n), Slice(blob, HEADER + n, n), Slice(blob, HEADER + 2 * n, n)))
  }

  /** The same for a public blob, which has no third slot. */
  function ReadPublic(blob: bytes): (s: Option<Slots>)
    ensures s.Some? ==> |s.value.x| == |s.value.y| && s.value.d == []
  {
    if |blob| < HEADER then
      None
    else
      var n := LittleEndian(Slice(blob, 4, 4));
      if |blob| != HEADER + 2 * n then
        None
      else
        Some(Slots(
               LittleEndian(Slice(blob, 0, 4)),
               Slice(blob, HEADER, n), Slice(blob, HEADER + n, n), []))
  }

  /** A blob with the given slots; the size in the header is that of a slot. */
  function Blob(s: Slots): (b: bytes) {
    Dword(s.magic) + Dword(|s.x|) + s.x + s.y + s.d
  }

  predicate Proper(s: Slots) {
    s.magic < 0x1_0000_0000 && |s.x| == |s.y| < 0x4000_0000
  }

  /** What is written into a blob is what its reader finds there. */
  lemma BlobIsRead(s: Slots)
    requires Proper(s)
    ensures |s.d| == |s.x| ==> ReadPrivate(Blob(s)) == Some(s)
    ensures s.d == [] ==> ReadPublic(Blob(s)) == Some(s)
  {
    hide LittleEndian, LowBytes, Pow256;
    DwordRange();
    LowBytesHold(s.magic, 4);
    LowBytesHold(|s.x|, 4);
    var b := Blob(s);
    assert Slice(b, 0, 4) == Dword(s.magic);
    assert Slice(b, 4, 4) == Dword(|s.x|);
    assert Slice(b, HEADER, |s.x|) == s.x;
    assert Slice(b, HEADER + |s.x|, |s.x|) == s.y;
    assert Slice(b, HEADER + 2 * |s.x|, |s.d|) == s.d;
  }

  /** Every blob with readable slots is the one built from them. */
  lemma ReadBlobIsBuilt(b: bytes)
    ensures ReadPrivate(b).Some? ==> Blob(ReadPrivate(b).value) == b
    ensures ReadPublic(b).Some? ==> Blob(ReadPublic(b).value) == b
  {
    hide LittleEndian, LowBytes;
    if |b| >= HEADER {
      LowBytesOfInteger(Slice(b, 0, 4));
      LowBytesOfInteger(Slice(b, 4, 4));
      var n := LittleEndian(Slice(b, 4, 4));
      if |b| == HEADER + 3 * n {
        assert b == Slice(b, 0, 4) + Slice(b, 4, 4)
                    + Slice(b, HEADER, n) + Slice(b, HEADER + n, n) + Slice(b, HEADER + 2 * n, n);
      }
      if |b| == HEADER + 2 * n {
        assert b == Slice(b, 0, 4) + Slice(b, 4, 4) + Slice(b, HEADER, n) + Slice(b, HEADER + n, n) + [];
      }
    }
  }

  // ---------- import ----------

  predicate KnownForm(b: byte) {
    b == UNCOMPRESSED || b == UNKNOWN_ASN || b == UNKNOWN_ASN_2
  }

  function ImportedPrivate(info: PrivateInfo): (s: Slots)
    requires CoordinateSize(info.publicKey) <= |info.privateKey|
    ensures |s.x| == |s.y| == |s.d|
  {
    var n := |info.privateKey|;
    Slots(PRIVATE_MAGIC, LeftPad(X(info.publicKey), n), LeftPad(Y(info.publicKey), n), info.privateKey)
  }

  /** What importing a private key gives: its slots, or why there are none. */
  function Imported(info: PrivateInfo): (r: Result<Slots, ImportError>)
    ensures r.Ok? ==> |r.value.x| == |r.value.y| == |r.value.d|
  {
    if info.publicKey != [] && !KnownForm(info.publicKey[0]) then
      Err(PublicKeyError)
    else if CoordinateSize(info.publicKey) > |info.privateKey| then
      Err(OutsideSlot)
    else
      Ok(ImportedPrivate(info))
  }

  function ImportedPublic(publicKey: bytes): (s: Slots)
    ensures |s.x| == |s.y|
  {
    Slots(PUBLIC_MAGIC, X(publicKey), Y(publicKey), [])
  }

  // ---------- where the coordinates are copied to ----------

  const ULONG: nat := 0x1_0000_0000
  const MAX_KEY: nat := 0x4000_0000

  /** The width a coordinate is short of its slot, an unsigned difference of 32 bits. */
  function Offset(cbKey: nat, cbPubKey: nat): (off: nat)
    ensures off < ULONG
  {
    (cbKey - cbPubKey) % ULONG
  }

  // Addresses wrap, too: at the width of a pointer.
  const POINTER_32: nat := 0x1_0000_0000
  const POINTER_64: nat := 0x1_0000_0000_0000_0000

  /** Where a copy meant for a slot goes, as a distance from the start of the blob. */
  function Destination(slot: nat, off: nat, pointers: nat): nat
    requires pointers > 0
  {
    (slot + off) % pointers
  }

  /** A copy of so many bytes stays between two places of the blob. */
  predicate Stays(at: nat, size: nat, from: nat, to: nat) {
    from <= at && at + size <= to
  }

  /** Each coordinate copy of the private import stays in the slot it is meant for. */
  predicate CopiesStay(cbKey: nat, cbPubKey: nat, pointers: nat)
    requires pointers > 0
  {
    var off := Offset(cbKey, cbPubKey);
    && Stays(Destination(HEADER, off, pointers), cbPubKey, HEADER, HEADER + cbKey)
    && Stays(Destination(HEADER + cbKey, off, pointers), cbPubKey, HEADER + cbKey, HEADER + 2 * cbKey)
  }

  /** Each at least stays inside the blob. */
  predicate CopiesFit(cbKey: nat, cbPubKey: nat, pointers: nat)
    requires pointers > 0
  {
    var off, size := Offset(cbKey, cbPubKey), HEADER + 3 * cbKey;
    && Stays(Destination(HEADER, off, pointers), cbPubKey, 0, size)
    && Stays(Destination(HEADER + cbKey, off, pointers), cbPubKey, 0, size)
  }

  /**
   The code logs coordinates wider than the scalar and goes on. With pointers of either width, the
   copies stay in their slots exactly when the coordinates are not wider. They stay inside the blob
   just as exactly where pointers have 64 bits; where they have 32, coordinates wider by up to the
   size of the header do as well, and are written over it.
   */
  lemma CopiesStayIff(info: PrivateInfo, pointers: nat)
    requires |info.publicKey| < ULONG && |info.privateKey| < MAX_KEY
    requires pointers == POINTER_32 || pointers == POINTER_64
    ensures
      var c, n := CoordinateSize(info.publicKey), |info.privateKey|;
      && (CopiesStay(n, c, pointers) <==> c <= n)
      && (CopiesFit(n, c, pointers) <==> c <= n + if pointers == POINTER_32 then HEADER else 0)
  {
    hide Offset, Destination;
    var c, n := CoordinateSize(info.publicKey), |info.privateKey|;
    WrappedOffset(n, c);
    WrappedDestination(HEADER, n, c, pointers);
    WrappedDestination(HEADER + n, n, c, pointers);
  }

  lemma WrappedDestination(slot: nat, cbKey: nat, cbPubKey: nat, pointers: nat)
    requires slot <= HEADER + cbKey && cbKey < MAX_KEY && cbPubKey < ULONG
    requires pointers == POINTER_32 || pointers == POINTER_64
    ensures
      var d := Destination(slot, Offset(cbKey, cbPubKey), pointers);
      d == if cbPubKey <= cbKey then slot + cbKey - cbPubKey
           else if pointers == POINTER_64 then slot + ULONG + cbKey - cbPubKey
           else if cbPubKey - cbKey <= slot then slot - (cbPubKey - cbKey)
           else slot + ULONG + cbKey - cbPubKey
  {
    hide Offset;
    WrappedOffset(cbKey, cbPubKey);
  }

  lemma WrappedOffset(cbKey: nat, cbPubKey: nat)
    requires cbKey < ULONG && cbPubKey < ULONG
    ensures Offset(cbKey, cbPubKey) == if cbPubKey <= cbKey then cbKey - cbPubKey else ULONG + cbKey - cbPubKey
  {
  }

  /**
   A key whose scalar lost a leading zero byte that its coordinates of two bytes kept: the copies
   leave their slots; with 32-bit pointers they stay in the blob, the first one over its header.
   */
  lemma ShortScalarDoesNotFit()
    ensures
      var info := PrivateInfo([UNCOMPRESSED, 1, 2, 3, 4], [9]);
      var c, n := CoordinateSize(info.publicKey), |info.privateKey|;
      && Imported(info) == Err(OutsideSlot)
      && !CopiesStay(n, c, POINTER_32) && !CopiesStay(n, c, POINTER_64)
      && CopiesFit(n, c, POINTER_32) && !CopiesFit(n, c, POINTER_64)
      && Destination(HEADER, Offset(n, c), POINTER_32) == HEADER - 1
  {
    CopiesStayIff(PrivateInfo([UNCOMPRESSED, 1, 2, 3, 4], [9]), POINTER_32);
    CopiesStayIff(PrivateInfo([UNCOMPRESSED, 1, 2, 3, 4], [9]), POINTER_64);
    WrappedDestination(HEADER, 1, 2, POINTER_32);
  }

  // The blob after each way of filling its two public slots, with room for the rest behind them.

  function PublicPart(h: bytes, publicKey: bytes, n: nat, rest: nat): (b: bytes)
    requires CoordinateSize(publicKey) <= n
    ensures |b| == |h| + 2 * n + rest
  {
    (h + LeftPad(X(publicKey), n) + LeftPad(Y(publicKey), n)) + Zeros(rest)
  }

  lemma CopiedAtOnce(h: bytes, publicKey: bytes, n: nat, rest: nat)
    requires publicKey != [] && CoordinateSize(publicKey) == n
    ensures Overwritten(h + Zeros(2 * n + rest), |h|, publicKey[1..1 + 2 * n]) == PublicPart(h, publicKey, n, rest)
  {
    hide BigEndian;
    assert publicKey[1..1 + 2 * n] == X(publicKey) + Y(publicKey);
  }

  lemma CopiedPadded(h: bytes, publicKey: bytes, n: nat, rest: nat)
    requires publicKey != [] && CoordinateSize(publicKey) <= n
    ensures
      var off := n - CoordinateSize(publicKey);
      Overwritten(
        Overwritten(h + Zeros(2 * n + rest), |h| + off, X(publicKey)),
        |h| + n + off, Y(publicKey))
      == PublicPart(h, publicKey, n, rest)
  {
    hide BigEndian, X, Y;
  }

  lemma NothingCopied(h: bytes, publicKey: bytes, n: nat, rest: nat)
    requires CoordinateSize(publicKey) == 0
    ensures h + Zeros(2 * n + rest) == PublicPart(h, publicKey, n, rest)
  {
    hide BigEndian;
  }

  method WriteHeader(dst: array<byte>, magic: nat, cbKey: nat)
    requires HEADER <= dst.Length && dst[..] == Zeros(dst.Length)
    modifies dst
    ensures dst[..] == (Dword(magic) + Dword(cbKey)) + Zeros(dst.Length - HEADER)
  {
    hide Dword;
    assert Zeros(dst.Length) == [] + Zeros(dst.Length);
    AppendDword(dst, 0, magic, []);
    assert [] + Dword(magic) == Dword(magic);
    AppendDword(dst, 4, cbKey, Dword(magic));
  }

  /** Fills the public slots, left-padding coordinates shorter than a slot, unless a copy would leave its slot. */
  method CopyPublic(blob: array<byte>, publicKey: bytes, cbKey: nat, ghost h: bytes, ghost rest: nat)
    returns (stays: bool)
    requires |h| == HEADER && blob[..] == h + Zeros(2 * cbKey + rest)
    requires |publicKey| < ULONG && cbKey < MAX_KEY && rest <= cbKey
    modifies blob
    ensures stays <==> CoordinateSize(publicKey) <= cbKey
    ensures stays ==> blob[..] == PublicPart(h, publicKey, cbKey, rest)
  {
    hide Overwritten, PublicPart, Offset;
    assert |blob[..]| == blob.Length;
    var cbPubKey := CoordinateSize(publicKey);
    if cbPubKey > 0 {
      if cbKey == cbPubKey {
        CopyMemory(blob, HEADER, publicKey[1..1 + 2 * cbKey]);
        CopiedAtOnce(h, publicKey, cbKey, rest);
      } else {
        var off := Offset(cbKey, cbPubKey);
        WrappedOffset(cbKey, cbPubKey);
        if off + cbPubKey > cbKey {
          return false;
        }
        CopyMemory(blob, HEADER + off, publicKey[1..1 + cbPubKey]);
        CopyMemory(blob, HEADER + cbKey + off, publicKey[1 + cbPubKey..1 + cbPubKey + cbPubKey]);
        CopiedPadded(h, publicKey, cbKey, rest);
      }
    } else {
      NothingCopied(h, publicKey, cbKey, rest);
    }
    return true;
  }

  method ImportPkcs8PrivateKey(info: PrivateInfo) returns (r: Result<array<byte>, ImportError>)
    requires |info.publicKey| < ULONG && |info.privateKey| < MAX_KEY
    ensures r.Err? ==> Imported(info) == Err(r.error)
    ensures r.Ok? ==> Imported(info).Ok?
    ensures r.Ok? ==> r.value[..] == Blob(Imported(info).value)
    ensures r.Ok? ==> ReadPrivate(r.value[..]) == Some(Imported(info).value)
  {
    hide LeftPad, Dword, X, Y, ReadPrivate, Overwritten;
    if |info.publicKey| > 0 && !KnownForm(info.publicKey[0]) {
      return Err(PublicKeyError);
    }
    var cbKey := |info.privateKey|;
    var blob := new byte[HEADER + 3 * cbKey](_ => 0);
    WriteHeader(blob, PRIVATE_MAGIC, cbKey);
    var stays := CopyPublic(blob, info.publicKey, cbKey, Dword(PRIVATE_MAGIC) + Dword(cbKey), cbKey);
    if !stays {
      return Err(OutsideSlot);
    }
    CopyMemory(blob, HEADER + 2 * cbKey, info.privateKey);
    ghost var s := ImportedPrivate(info);
    WriteNext(Dword(PRIVATE_MAGIC) + Dword(cbKey) + s.x + s.y, cbKey, s.d);
    assert Blob(s) == (Dword(PRIVATE_MAGIC) + Dword(cbKey) + s.x + s.y + s.d) + Zeros(0);
    BlobIsRead(s);
    return Ok(blob);
  }

  /** The public import only logs an unknown form byte. */
  method ImportSubjectPublicKeyInfo(publicKey: bytes) returns (blob: array<byte>)
    requires |publicKey| < MAX_KEY
    ensures blob[..] == Blob(ImportedPublic(publicKey))
    ensures ReadPublic(blob[..]) == Some(ImportedPublic(publicKey))
  {
    hide Dword, X, Y, ReadPublic, BigEndian;
    var cbKey := CoordinateSize(publicKey);
    blob := new byte[HEADER + 2 * cbKey](_ => 0);
    WriteHeader(blob, PUBLIC_MAGIC, cbKey);
    var stays := CopyPublic(blob, publicKey, cbKey, Dword(PUBLIC_MAGIC) + Dword(cbKey), 0);
    ghost var s := ImportedPublic(publicKey);
    NothingToPad(s.x);
    NothingToPad(s.y);
    assert Blob(s) == (Dword(PUBLIC_MAGIC) + Dword(cbKey) + s.x + s.y) + Zeros(0);
    BlobIsRead(s);
  }

  // ---------- export ----------

  /** The key structures made from a provider blob. */
  method ExportPkcs8PrivateKey(blob: bytes) returns (info: PrivateInfo)
    requires ReadPrivate(blob).Some?
    ensures info == ExportedPrivate(ReadPrivate(blob).value)
  {
    hide LittleEndian;
    var cbKey := LittleEndian(Slice(blob, 4, 4));
    var publicKey := new byte[1 + 2 * cbKey](_ => 0);
    publicKey[0] := UNCOMPRESSED;
    assert publicKey[..] == [UNCOMPRESSED] + Zeros(2 * cbKey);
    ghost var s := ReadPrivate(blob).value;
    CopyMemory(publicKey, 1, Slice(blob, HEADER, cbKey));
    WriteNext([UNCOMPRESSED], 2 * cbKey, s.x);
    CopyMemory(publicKey, 1 + cbKey, Slice(blob, HEADER + cbKey, cbKey));
    WriteNext([UNCOMPRESSED] + s.x, cbKey, s.y);
    assert publicKey[..] == [UNCOMPRESSED] + s.x + s.y;
    return PrivateInfo(publicKey[..], Slice(blob, HEADER + 2 * cbKey, cbKey));
  }

  method ExportSubjectPublicKeyInfo(blob: bytes) returns (publicKey: bytes)
    requires ReadPublic(blob).Some?
    ensures publicKey == ExportedPublic(ReadPublic(blob).value)
  {
    hide LittleEndian;
    var cbKey := LittleEndian(Slice(blob, 4, 4));
    var out := new byte[1 + 2 * cbKey](_ => 0);
    out[0] := UNCOMPRESSED;
    assert out[..] == [UNCOMPRESSED] + Zeros(2 * cbKey);
    ghost var s := ReadPublic(blob).value;
    CopyMemory(out, 1, Slice(blob, HEADER, 2 * cbKey));
    WriteNext([UNCOMPRESSED], 2 * cbKey, s.x + s.y);
    assert Slice(blob, HEADER, 2 * cbKey) == s.x + s.y;
    assert out[..] == [UNCOMPRESSED] + s.x + s.y;
    return out[..];
  }

  function ExportedPublic(s: Slots): (publicKey: bytes)
    requires |s.x| == |s.y|
    ensures X(publicKey) == s.x && Y(publicKey) == s.y
    ensures |publicKey| == 1 + 2 * |s.x| && publicKey[0] == UNCOMPRESSED
  {
    [UNCOMPRESSED] + s.x + s.y
  }

  function ExportedPrivate(s: Slots): (info: PrivateInfo)
    requires |s.x| == |s.y|
    ensures CoordinateSize(info.publicKey) == |s.x|
  {
    PrivateInfo(ExportedPublic(s), s.d)
  }

  // ---------- round trips ----------

  /** Exporting a private blob and importing the result restores X, Y and d byte for byte. */
  lemma ImportUndoesExport(blob: bytes)
    requires ReadPrivate(blob).Some?
    ensures
      var s := ReadPrivate(blob).value;
      && Imported(ExportedPrivate(s)) == Ok(s.(magic := PRIVATE_MAGIC))
      && (s.magic == PRIVATE_MAGIC ==> Blob(Imported(ExportedPrivate(s)).value) == blob)
  {
    hide BigEndian, LittleEndian;
    var s := ReadPrivate(blob).value;
    ReadBlobIsBuilt(blob);
    NothingToPad(s.x);
    NothingToPad(s.y);
  }

  lemma PublicImportUndoesExport(blob: bytes)
    requires ReadPublic(blob).Some?
    ensures
      var s := ReadPublic(blob).value;
      && ImportedPublic(ExportedPublic(s)) == s.(magic := PUBLIC_MAGIC)
      && (s.magic == PUBLIC_MAGIC ==> Blob(ImportedPublic(ExportedPublic(s))) == blob)
  {
    ReadBlobIsBuilt(blob);
  }

  /**
   Importing a private key and exporting it again returns the same structure exactly when its
   public key is there, uncompressed, of odd length, and as wide as the scalar.
   */
  lemma ExportUndoesImportIff(info: PrivateInfo)
    ensures
      Imported(info).Ok? && ExportedPrivate(Imported(info).value) == info <==>
      |info.publicKey| == 1 + 2 * |info.privateKey| && info.publicKey[0] == UNCOMPRESSED
  {
    hide BigEndian, X, Y, LeftPad;
    if |info.publicKey| == 1 + 2 * |info.privateKey| && info.publicKey[0] == UNCOMPRESSED {
      FullWidth(info);
    }
  }

  lemma FullWidth(info: PrivateInfo)
    requires |info.publicKey| == 1 + 2 * |info.privateKey| && info.publicKey[0] == UNCOMPRESSED
    ensures ExportedPublic(ImportedPrivate(info)) == info.publicKey
  {
    hide BigEndian, LeftPad;
    NothingToPad(X(info.publicKey));
    NothingToPad(Y(info.publicKey));
    assert info.publicKey == [UNCOMPRESSED] + X(info.publicKey) + Y(info.publicKey);
  }

  lemma NothingToPad(s: bytes)
    ensures LeftPad(s, |s|) == s
  {
    assert Zeros(0) + s == s;
  }

  /** Whatever is imported at all: the coordinates stay the same integers, each in a slot of its own. */
  lemma ImportKeepsIntegers(info: PrivateInfo)
    requires |info.privateKey| < MAX_KEY && Imported(info).Ok?
    ensures
      var r := ReadPrivate(Blob(Imported(info).value));
      && r.Some?
      && BigEndian(r.value.x) == BigEndian(X(info.publicKey))
      && BigEndian(r.value.y) == BigEndian(Y(info.publicKey))
      && r.value.d == info.privateKey
  {
    BlobIsRead(Imported(info).value);
  }
}
