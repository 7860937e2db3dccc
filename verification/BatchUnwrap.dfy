/** Unwrapping keys with a released RSA key, one at a time and in a batch. */
module BatchUnwrap {
  import opened Bytes
  import opened Base64
  import opened Base64Laws

  // ---------- hash algorithms ----------

  datatype Md = Sha1 | Sha256 | Sha384 | Sha512

  /** Lower-cased, without dashes. */
  function Normalised(name: bytes): bytes {
    if name == [] then
      []
    else
      (if ToLower(name[0]) == '-' as int then [] else [ToLower(name[0])]) + Normalised(name[1..])
  }

  function MdByName(name: bytes): Option<Md> {
    var n := Normalised(name);
    if n == Ascii("sha1") then Some(Sha1)
    else if n == Ascii("sha256") then Some(Sha256)
    else if n == Ascii("sha384") then Some(Sha384)
    else if n == Ascii("sha512") then Some(Sha512)
    else None
  }

  /** The OAEP hash, and the mask hash, which is the same when it is not named. */
  datatype Hashes = Hashes(oaep: Md, mgf1: Md)

  function HashesByName(oaep: bytes, mgf1: bytes): Option<Hashes> {
    var o := MdByName(oaep);
    var m := if mgf1 == [] then o else MdByName(mgf1);
    if o.None? || m.None? then None else Some(Hashes(o.value, m.value))
  }

  // ---------- the released key ----------

  /** What key release may return; the RSA operations are OpenSSL's. */
  datatype ReleasedKey = ReleasedKey(
    isRsa: bool,
    encrypt: bytes -> Option<bytes>,
    decrypt: (Hashes, bytes) -> Option<bytes>)

  datatype UnwrapError =
    | ReleaseFailed
    | NotRsa
    | UnknownHash
    | BadWrapped(error: DecodeError)
    | RsaFailed

  /** A wrapped text under a key: base64, RSA, and out again through base64. */
  function UnwrapUnder(key: ReleasedKey, hashes: Hashes, wrapped: bytes): Result<bytes, UnwrapError> {
    match DecodeTrimming(wrapped)
    case Err(e) => Err(BadWrapped(e))
    case Ok(c) =>
      match key.decrypt(hashes, c)
      case None => Err(RsaFailed)
      case Some(plain) => Ok(TrimRight(plain))
  }

  function Unwrap(release: Option<ReleasedKey>, oaep: bytes, mgf1: bytes, wrapped: bytes)
    : Result<bytes, UnwrapError>
  {
    if release.None? then
      Err(ReleaseFailed)
    else if !release.value.isRsa then
      Err(NotRsa)
    else
      var hashes := HashesByName(oaep, mgf1);
      if DecodeTrimming(wrapped).Err? then
        Err(BadWrapped(DecodeTrimming(wrapped).error))
      else if hashes.None? then
        Err(UnknownHash)
      else
        UnwrapUnder(release.value, hashes.value, wrapped)
  }

  method UnwrapKey(release: Option<ReleasedKey>, wrappedBase64: bytes, oaep: bytes, mgf1: bytes)
    returns (r: Result<bytes, UnwrapError>)
    ensures r == Unwrap(release, oaep, mgf1, wrappedBase64)
  {
    if release.None? {
      return Err(ReleaseFailed);
    }
    var pkey := release.value;
    if !pkey.isRsa {
      return Err(NotRsa);
    }
    var wrapped := DecodeTrimming(wrappedBase64);
    if wrapped.Err? {
      return Err(BadWrapped(wrapped.error));
    }
    var oaepMd := MdByName(oaep);
    if oaepMd.None? {
      return Err(UnknownHash);
    }
    var mgf1Md := if mgf1 == [] then oaepMd else MdByName(mgf1);
    if mgf1Md.None? {
      return Err(UnknownHash);
    }
    var decrypted := pkey.decrypt(Hashes(oaepMd.value, mgf1Md.value), wrapped.value);
    if decrypted.None? {
      return Err(RsaFailed);
    }
    var plainText := Encode(decrypted.value);
    TrimmingDecodeOfEncoding(decrypted.value);
    return Ok(DecodeTrimming(plainText).value);
  }

  method WrapKey(release: Option<ReleasedKey>, symKey: bytes) returns (r: Result<bytes, UnwrapError>)
    ensures r == Wrap(release, symKey)
  {
    if release.None? {
      return Err(ReleaseFailed);
    }
    if !release.value.isRsa {
      return Err(NotRsa);
    }
    var encrypted := release.value.encrypt(symKey);
    if encrypted.None? {
      return Err(RsaFailed);
    }
    return Ok(Encode(encrypted.value));
  }

  function Wrap(release: Option<ReleasedKey>, symKey: bytes): Result<bytes, UnwrapError> {
    if release.None? then
      Err(ReleaseFailed)
    else if !release.value.isRsa then
      Err(NotRsa)
    else
      match release.value.encrypt(symKey)
      case None => Err(RsaFailed)
      case Some(c) => Ok(Encode(c))
  }

  const SHA256: bytes := Ascii("sha256")

  /** Decryption with SHA-256 undoes encryption. */
  ghost predicate Inverse(key: ReleasedKey) {
    forall k :: key.encrypt(k).Some? ==>
      key.decrypt(Hashes(Sha256, Sha256), key.encrypt(k).value) == Some(k)
  }

  lemma Sha256IsKnown()
    ensures HashesByName(SHA256, []) == Some(Hashes(Sha256, Sha256))
  {
    var s := SHA256;
    assert s[1..][1..][1..][1..][1..][1..] == [];
    assert Normalised(s) == s;
  }

  /**
   Unwrapping a wrapped key. When the ciphertext ends in a byte other than zero, the key comes
   back exactly if it is empty or ends in a byte other than zero itself; otherwise RSA is handed a
   ciphertext cut short. Both are the trimming decoder's doing.
   */
  lemma UnwrapUndoesWrapIff(key: ReleasedKey, symKey: bytes)
    requires key.isRsa && Inverse(key) && key.encrypt(symKey).Some?
    ensures
      var c := key.encrypt(symKey).value;
      var wrapped := Wrap(Some(key), symKey);
      && wrapped.Ok?
      && (c == [] || c[|c| - 1] != 0 ==>
            (Unwrap(Some(key), SHA256, [], wrapped.value) == Ok(symKey) <==> symKey == [] || symKey[|symKey| - 1] != 0))
      && (!(c == [] || c[|c| - 1] != 0) ==>
            && |TrimRight(c)| < |c|
            && Unwrap(Some(key), SHA256, [], wrapped.value) ==
               match key.decrypt(Hashes(Sha256, Sha256), TrimRight(c)) {
                 case None => Err(RsaFailed)
                 case Some(plain) => Ok(TrimRight(plain))
               })
  {
    hide Encode, DecodeTrimming, Normalised, MdByName, HashesByName;
    var c := key.encrypt(symKey).value;
    Sha256IsKnown();
    TrimmingDecodeOfEncoding(c);
    TrimIsIdentityIff(c);
    TrimIsIdentityIff(symKey);
  }

  // ---------- the batch ----------

  /** A member of a JSON object: not there, a string, or something else. */
  datatype Member = Absent | Text(value: bytes) | Other

  datatype Entry = NoObject | Object(id: Member, wrapped: Member)

  /** The parsed input: not JSON, JSON without a "keys" array, or the array. */
  datatype Input = NotJson | NoKeys | Keys(entries: seq<Entry>)

  datatype EntryError = MissingWrapped | Failed(error: UnwrapError)

  /** An object of the output array. */
  datatype ResultEntry = ResultEntry(id: bytes, unwrapped: Option<bytes>, error: Option<EntryError>)

  datatype BatchError = Usage | KeyRelease | KeyType | HashName | EntryType | NotUtf8

  /** Decimal digits of an index. */
  function Decimal(n: nat): (s: bytes)
    ensures s != []
  {
    if n < 10 then ['0' as int + n] else Decimal(n / 10) + ['0' as int + n % 10]
  }

  /** An entry whose type does not end the batch with an exception. */
  predicate Readable(e: Entry) {
    e.Object? && !e.id.Other?
  }

  predicate AllReadable(entries: seq<Entry>) {
    forall i :: 0 <= i < |entries| ==> Readable(entries[i])
  }

  /** What the output says about the entry at an index; no other entry plays a part. */
  ghost predicate Answers(key: ReleasedKey, hashes: Hashes, e: Entry, i: nat, r: ResultEntry) {
    && Readable(e)
    && r.id == (if e.id.Text? then e.id.value else Decimal(i))
    && (r.unwrapped.Some? <==> r.error.None?)
    && (if e.wrapped.Text? then
          var single := UnwrapUnder(key, hashes, e.wrapped.value);
          if single.Ok? then r.unwrapped == Some(single.value) else r.error == Some(Failed(single.error))
        else
          r.error == Some(MissingWrapped))
  }

  ghost predicate AllAnswer(key: ReleasedKey, hashes: Hashes, entries: seq<Entry>, rs: seq<ResultEntry>) {
    && |rs| <= |entries|
    && forall i :: 0 <= i < |rs| ==> Answers(key, hashes, entries[i], i, rs[i])
  }

  function Successes(rs: seq<ResultEntry>): (n: nat)
    ensures n <= |rs|
  {
    if rs == [] then 0
    else Successes(rs[..|rs| - 1]) + (if rs[|rs| - 1].unwrapped.Some? then 1 else 0)
  }

  predicate Printable(isUtf8: bytes -> bool, rs: seq<ResultEntry>) {
    forall i :: 0 <= i < |rs| && rs[i].unwrapped.Some? ==> isUtf8(rs[i].unwrapped.value)
  }

  /** The loop over the entries; None when an entry's type ends it with an exception. */
  method UnwrapEntries(key: ReleasedKey, hashes: Hashes, entries: seq<Entry>)
    returns (results: Option<seq<ResultEntry>>, successCount: nat, errorCount: nat)
    ensures results.Some? <==> AllReadable(entries)
    ensures results.Some? ==>
              && |results.value| == |entries|
              && AllAnswer(key, hashes, entries, results.value)
              && successCount == Successes(results.value)
              && successCount + errorCount == |entries|
  {
    hide DecodeTrimming, Encode, Successes;
    var rs: seq<ResultEntry> := [];
    successCount, errorCount := 0, 0;
    NoSuccesses();
    for i := 0 to |entries|
      invariant |rs| == i
      invariant AllAnswer(key, hashes, entries, rs)
      invariant forall j :: 0 <= j < i ==> Readable(entries[j])
      invariant successCount == Successes(rs)
      invariant successCount + errorCount == i
    {
      var entry := entries[i];
      if !entry.Object? || entry.id.Other? {
        return None, successCount, errorCount;
      }
      var id := if entry.id.Absent? then Decimal(i) else entry.id.value;
      var r := UnwrapEntry(key, hashes, entry, id, i);
      OneMore(rs, r);
      if r.unwrapped.Some? {
        successCount := successCount + 1;
      } else {
        errorCount := errorCount + 1;
      }
      rs := rs + [r];
    }
    return Some(rs), successCount, errorCount;
  }

  lemma NoSuccesses()
    ensures Successes([]) == 0
  {
  }

  lemma OneMore(rs: seq<ResultEntry>, r: ResultEntry)
    ensures Successes(rs + [r]) == Successes(rs) + (if r.unwrapped.Some? then 1 else 0)
  {
    assert (rs + [r])[..|rs|] == rs;
  }

  /** The body of the loop: an exception becomes the entry's error. */
  method UnwrapEntry(key: ReleasedKey, hashes: Hashes, entry: Entry, id: bytes, ghost i: nat)
    returns (r: ResultEntry)
    requires Readable(entry) && id == if entry.id.Text? then entry.id.value else Decimal(i)
    ensures Answers(key, hashes, entry, i, r)
  {
    hide DecodeTrimming, Encode;
    if !entry.wrapped.Text? {
      return ResultEntry(id, None, Some(MissingWrapped));
    }
    var wrapped := DecodeTrimming(entry.wrapped.value);
    if wrapped.Err? {
      return ResultEntry(id, None, Some(Failed(BadWrapped(wrapped.error))));
    }
    var decrypted := key.decrypt(hashes, wrapped.value);
    if decrypted.None? {
      return ResultEntry(id, None, Some(Failed(RsaFailed)));
    }
    TrimmingDecodeOfEncoding(decrypted.value);
    var plainTextB64 := Encode(decrypted.value);
    return ResultEntry(id, Some(DecodeTrimming(plainTextB64).value), None);
  }

  /** Why a batch is refused before any entry is looked at. */
  function Refusal(input: Input, release: Option<ReleasedKey>, oaep: bytes, mgf1: bytes): Option<BatchError> {
    if !input.Keys? then Some(Usage)
    else if release.None? then Some(KeyRelease)
    else if !release.value.isRsa then Some(KeyType)
    else if HashesByName(oaep, mgf1).None? then Some(HashName)
    else None
  }

  /** Every key that the single operation would return is UTF-8 text. */
  predicate KeysAreText(
    release: Option<ReleasedKey>, oaep: bytes, mgf1: bytes, isUtf8: bytes -> bool, entries: seq<Entry>)
  {
    forall i :: 0 <= i < |entries| && entries[i].Object? && entries[i].wrapped.Text? ==>
      var single := Unwrap(release, oaep, mgf1, entries[i].wrapped.value);
      single.Ok? ==> isUtf8(single.value)
  }

  /** When a batch returns its results: not refused, no entry of the wrong type, every key UTF-8 text. */
  predicate Accepted(
    input: Input, release: Option<ReleasedKey>, oaep: bytes, mgf1: bytes, isUtf8: bytes -> bool)
  {
    && Refusal(input, release, oaep, mgf1).None?
    && AllReadable(input.entries)
    && KeysAreText(release, oaep, mgf1, isUtf8, input.entries)
  }

  /** Why it does not, in the order the code meets the reasons. */
  function BatchErrorOf(input: Input, release: Option<ReleasedKey>, oaep: bytes, mgf1: bytes): BatchError {
    var refusal := Refusal(input, release, oaep, mgf1);
    if refusal.Some? then refusal.value else if !AllReadable(input.entries) then EntryType else NotUtf8
  }

  /**
   One release serves the whole batch, and it returns results exactly when it is accepted. They
   come in the order and number of the entries, each with exactly one of "unwrapped" and "error".
   */
  method UnwrapKeyBatch(
    input: Input, release: Option<ReleasedKey>, oaep: bytes, mgf1: bytes, isUtf8: bytes -> bool)
    returns (r: Result<seq<ResultEntry>, BatchError>, successCount: nat, errorCount: nat)
    ensures r.Ok? <==> Accepted(input, release, oaep, mgf1, isUtf8)
    ensures r.Err? ==> r.error == BatchErrorOf(input, release, oaep, mgf1)
    ensures r.Ok? ==>
              && |r.value| == |input.entries|
              && AllAnswer(release.value, HashesByName(oaep, mgf1).value, input.entries, r.value)
              && successCount == Successes(r.value)
              && successCount + errorCount == |input.entries|
  {
    hide HashesByName, AllAnswer, Printable, Successes, KeysAreText, AllReadable;
    successCount, errorCount := 0, 0;
    if !input.Keys? {
      r := Err(Usage);
      return;
    }
    if release.None? {
      r := Err(KeyRelease);
      return;
    }
    if !release.value.isRsa {
      r := Err(KeyType);
      return;
    }
    var hashes := HashesByName(oaep, mgf1);
    if hashes.None? {
      r := Err(HashName);
      return;
    }
    var results;
    results, successCount, errorCount := UnwrapEntries(release.value, hashes.value, input.entries);
    if results.None? {
      r := Err(EntryType);
    } else {
      PrintableIff(release, oaep, mgf1, isUtf8, input.entries, results.value);
      if Printable(isUtf8, results.value) {
        r := Ok(results.value);
      } else {
        r := Err(NotUtf8);
      }
    }
  }

  /** Whether the results can be printed is decided by the keys of the single operation. */
  lemma PrintableIff(
    release: Option<ReleasedKey>, oaep: bytes, mgf1: bytes, isUtf8: bytes -> bool,
    entries: seq<Entry>, rs: seq<ResultEntry>)
    requires Refusal(Keys(entries), release, oaep, mgf1).None?
    requires |rs| == |entries| && AllAnswer(release.value, HashesByName(oaep, mgf1).value, entries, rs)
    ensures Printable(isUtf8, rs) <==> KeysAreText(release, oaep, mgf1, isUtf8, entries)
  {
    hide HashesByName, AllAnswer, Unwrap;
    forall i | 0 <= i < |rs|
      ensures entries[i].Object?
      ensures rs[i].unwrapped.Some? ==>
                && entries[i].wrapped.Text?
                && Unwrap(release, oaep, mgf1, entries[i].wrapped.value) == Ok(rs[i].unwrapped.value)
      ensures entries[i].wrapped.Text? && Unwrap(release, oaep, mgf1, entries[i].wrapped.value).Ok? ==>
                rs[i].unwrapped.Some?
    {
      SameAsSingle(release, oaep, mgf1, entries, rs, i);
    }
  }

  lemma SameAsSingle(
    release: Option<ReleasedKey>, oaep: bytes, mgf1: bytes, entries: seq<Entry>, rs: seq<ResultEntry>, i: nat)
    requires Refusal(Keys(entries), release, oaep, mgf1).None?
    requires |rs| == |entries| && AllAnswer(release.value, HashesByName(oaep, mgf1).value, entries, rs)
    requires i < |entries|
    ensures entries[i].Object?
    ensures
      rs[i].unwrapped ==
      if entries[i].wrapped.Text? && Unwrap(release, oaep, mgf1, entries[i].wrapped.value).Ok?
      then Some(Unwrap(release, oaep, mgf1, entries[i].wrapped.value).value)
      else None
  {
    hide DecodeTrimming, HashesByName;
    assert Answers(release.value, HashesByName(oaep, mgf1).value, entries[i], i, rs[i]);
  }

  /**
   The results a batch gives are the only ones that answer its entries, and each agrees with the
   single operation: it holds a key exactly when that returns the key, whatever the other entries
   are.
   */
  lemma BatchAgreesWithSingle(
    release: Option<ReleasedKey>, oaep: bytes, mgf1: bytes, entries: seq<Entry>, rs: seq<ResultEntry>, i: nat, v: bytes)
    requires Refusal(Keys(entries), release, oaep, mgf1).None?
    requires |rs| == |entries| && AllAnswer(release.value, HashesByName(oaep, mgf1).value, entries, rs)
    requires i < |entries|
    ensures
      rs[i].unwrapped == Some(v) <==>
      entries[i].wrapped.Text? && Unwrap(release, oaep, mgf1, entries[i].wrapped.value) == Ok(v)
    ensures
      rs[i].error.Some? <==>
      (entries[i].wrapped.Text? ==> Unwrap(release, oaep, mgf1, entries[i].wrapped.value).Err?)
  {
    hide DecodeTrimming, HashesByName;
    assert Answers(release.value, HashesByName(oaep, mgf1).value, entries[i], i, rs[i]);
  }

  lemma AnswersAreUnique(
    key: ReleasedKey, hashes: Hashes, entries: seq<Entry>, rs: seq<ResultEntry>, ts: seq<ResultEntry>)
    requires AllAnswer(key, hashes, entries, rs) && AllAnswer(key, hashes, entries, ts)
    requires |rs| == |ts| == |entries|
    ensures rs == ts
  {
    hide UnwrapUnder;
    forall i | 0 <= i < |rs| ensures rs[i] == ts[i] {
      assert Answers(key, hashes, entries[i], i, rs[i]) && Answers(key, hashes, entries[i], i, ts[i]);
    }
  }

  /**
   A batch of two entries that each unwrap alone: the second key is the byte 255, which no UTF-8
   text holds, so printing fails and the first key is lost with it. The first alone is accepted.
   */
  lemma OneKeyCanCostTheBatch(isUtf8: bytes -> bool)
    returns (release: Option<ReleasedKey>, entries: seq<Entry>)
    requires isUtf8([65]) && !isUtf8([255])
    ensures |entries| == 2 && AllReadable(entries) && entries[0].wrapped.Text? && entries[1].wrapped.Text?
    ensures Unwrap(release, SHA256, [], entries[0].wrapped.value) == Ok([65])
    ensures Unwrap(release, SHA256, [], entries[1].wrapped.value) == Ok([255])
    ensures !Accepted(Keys(entries), release, SHA256, [], isUtf8)
    ensures BatchErrorOf(Keys(entries), release, SHA256, []) == NotUtf8
    ensures Accepted(Keys(entries[..1]), release, SHA256, [], isUtf8)
  {
    hide Encode, DecodeTrimming, HashesByName, Unwrap;
    release := Some(Echo());
    var first, second := Text(Encode([65])), Text(Encode([255]));
    entries := [Object(Absent, first), Object(Absent, second)];
    Sha256IsKnown();
    EchoUnwraps(65);
    EchoUnwraps(255);
    assert entries[1].wrapped == second;
    assert entries[..1] == [Object(Absent, first)];
  }

  /** A key whose RSA operations change nothing. */
  function Echo(): ReleasedKey {
    ReleasedKey(true, k => Some(k), (_, c) => Some(c))
  }

  lemma EchoUnwraps(b: byte)
    requires b != 0
    ensures Unwrap(Some(Echo()), SHA256, [], Encode([b])) == Ok([b])
  {
    hide Encode, DecodeTrimming, HashesByName;
    Sha256IsKnown();
    TrimmingDecodeOfEncoding([b]);
    TrimIsIdentityIff([b]);
  }

  /** A key whose ciphertexts end in the given byte. */
  function Stamping(b: byte): ReleasedKey {
    ReleasedKey(
      true,
      k => Some(k + [b]),
      (_, c) => if c != [] && c[|c| - 1] == b then Some(c[..|c| - 1]) else None)
  }

  lemma StampingInverse(b: byte)
    ensures Inverse(Stamping(b))
  {
    assert forall k: bytes :: (k + [b])[..|k + [b]| - 1] == k;
  }

  /**
   The wrapped key 7, 0 comes back as 7, its last byte gone; and under an RSA key that gives it a
   ciphertext ending in zero, the key 7 does not come back at all.
   */
  lemma TrailingZeroIsLost()
    ensures Inverse(Stamping(1)) && Inverse(Stamping(0))
    ensures
      var wrapped := Wrap(Some(Stamping(1)), [7, 0]);
      wrapped.Ok? && Unwrap(Some(Stamping(1)), SHA256, [], wrapped.value) == Ok([7])
    ensures
      var wrapped := Wrap(Some(Stamping(0)), [7]);
      wrapped.Ok? && Unwrap(Some(Stamping(0)), SHA256, [], wrapped.value) == Err(RsaFailed)
  {
    hide Encode, DecodeTrimming, HashesByName;
    StampingInverse(1);
    StampingInverse(0);
    Sha256IsKnown();
    assert [7, 0] + [1] == [7, 0, 1] && [7] + [0] == [7, 0];
    TrimmingDecodeOfEncoding([7, 0, 1]);
    TrimmingDecodeOfEncoding([7, 0]);
    TrimIsIdentityIff([7, 0, 1]);
    assert [7, 0, 1][..2] == [7, 0];
    assert [7, 0][..1] == [7];
    TrimIsIdentityIff([7]);
    assert TrimRight([7, 0]) == TrimRight([7]);
  }

  // ---------- names and numbers ----------

  /** A name is put together from its characters: dashes vanish, capitals become small. */
  lemma {:induction false} NormalisedAppend(a: bytes, b: bytes)
    ensures Normalised(a + b) == Normalised(a) + Normalised(b)
  {
    if a == [] {
      assert a + b == b;
    } else {
      assert (a + b)[1..] == a[1..] + b;
      NormalisedAppend(a[1..], b);
    }
  }

  lemma NormalisedCharacter(c: byte)
    ensures Normalised([]) == []
    ensures Normalised([c]) == if c == 45 then [] else if 65 <= c <= 90 then [c + 32] else [c]
  {
    assert [c][1..] == [];
  }

  /** The four names there are: "sha1", "sha256", "sha384" and "sha512". */
  lemma HashNames(name: bytes)
    ensures MdByName(name) == Some(Sha1) <==> Normalised(name) == [115, 104, 97, 49]
    ensures MdByName(name) == Some(Sha256) <==> Normalised(name) == [115, 104, 97, 50, 53, 54]
    ensures MdByName(name) == Some(Sha384) <==> Normalised(name) == [115, 104, 97, 51, 56, 52]
    ensures MdByName(name) == Some(Sha512) <==> Normalised(name) == [115, 104, 97, 53, 49, 50]
  {
    hide Normalised;
    assert Ascii("sha1") == [115, 104, 97, 49] && Ascii("sha256") == [115, 104, 97, 50, 53, 54];
    assert Ascii("sha384") == [115, 104, 97, 51, 56, 52] && Ascii("sha512") == [115, 104, 97, 53, 49, 50];
  }

  /** "SHA-512" is one of their spellings. */
  lemma HashSpelling()
    ensures MdByName([83, 72, 65, 45, 53, 49, 50]) == Some(Sha512)
  {
    hide Normalised, MdByName;
    var s, t, u := [83], [72], [65];
    NormalisedCharacter(83);
    NormalisedCharacter(72);
    NormalisedCharacter(65);
    NormalisedCharacter(45);
    NormalisedCharacter(53);
    NormalisedCharacter(49);
    NormalisedCharacter(50);
    NormalisedAppend([83], [72]);
    NormalisedAppend([83, 72], [65]);
    NormalisedAppend([83, 72, 65], [45]);
    NormalisedAppend([83, 72, 65, 45], [53]);
    NormalisedAppend([83, 72, 65, 45, 53], [49]);
    NormalisedAppend([83, 72, 65, 45, 53, 49], [50]);
    assert [83] + [72] == [83, 72] && [83, 72] + [65] == [83, 72, 65] && [83, 72, 65] + [45] == [83, 72, 65, 45];
    assert [83, 72, 65, 45] + [53] == [83, 72, 65, 45, 53] && [83, 72, 65, 45, 53] + [49] == [83, 72, 65, 45, 53, 49];
    assert [83, 72, 65, 45, 53, 49] + [50] == [83, 72, 65, 45, 53, 49, 50];
    HashNames([83, 72, 65, 45, 53, 49, 50]);
  }

  /** The mask hash is the other one unless it is named. */
  lemma HashesIff(oaep: bytes, mgf1: bytes, h: Hashes)
    ensures
      HashesByName(oaep, mgf1) == Some(h) <==>
      MdByName(oaep) == Some(h.oaep) && (if |mgf1| == 0 then h.mgf1 == h.oaep else MdByName(mgf1) == Some(h.mgf1))
  {
    hide MdByName;
  }

  /** The number that decimal digits stand for. */
  function NumberOf(s: bytes): int {
    if s == [] then
      0
    else
      var last: int := s[|s| - 1];
      10 * NumberOf(s[..|s| - 1]) + (last - 48)
  }

  /** The default id of an entry is its index in decimal digits, without leading zeros. */
  lemma {:induction false} DecimalIs(n: nat)
    ensures NumberOf(Decimal(n)) == n
    ensures forall i :: 0 <= i < |Decimal(n)| ==> 48 <= Decimal(n)[i] <= 57
    ensures |Decimal(n)| > 1 ==> Decimal(n)[0] != 48
    ensures n > 0 ==> Decimal(n)[0] != 48
  {
    var s := Decimal(n);
    if n < 10 {
      assert s[..0] == [];
    } else {
      DecimalIs(n / 10);
      assert s[..|s| - 1] == Decimal(n / 10);
    }
  }

  /** What is left of a plaintext: all but its trailing zeros. */
  ghost predicate IsTrimmed(v: bytes, plain: bytes) {
    && v <= plain
    && (v == [] || v[|v| - 1] != 0)
    && forall i :: |v| <= i < |plain| ==> plain[i] == 0
  }

  lemma {:induction false} TrimIff(v: bytes, plain: bytes)
    ensures IsTrimmed(v, plain) <==> v == TrimRight(plain)
  {
    if plain != [] && plain[|plain| - 1] == 0 {
      var front := plain[..|plain| - 1];
      TrimIff(v, front);
      assert IsTrimmed(v, plain) <==> IsTrimmed(v, front);
    }
  }

  /**
   Unwrapping a key, outcome by outcome: the release, the kind of key, the base64 text, the hash
   names and RSA are looked at in this order, and what RSA gives comes back without trailing zeros.
   */
  lemma UnwrapIs(release: Option<ReleasedKey>, oaep: bytes, mgf1: bytes, wrapped: bytes, v: bytes, c: bytes, h: Hashes)
    ensures release == None ==> Unwrap(release, oaep, mgf1, wrapped) == Err(ReleaseFailed)
    ensures release.Some? && !release.value.isRsa ==> Unwrap(release, oaep, mgf1, wrapped) == Err(NotRsa)
    ensures release.Some? && release.value.isRsa && DecodeRaw(wrapped).Err? ==>
              Unwrap(release, oaep, mgf1, wrapped) == Err(BadWrapped(DecodeRaw(wrapped).error))
    ensures release.Some? && release.value.isRsa && DecodeRaw(wrapped).Ok? && HashesByName(oaep, mgf1) == None ==>
              Unwrap(release, oaep, mgf1, wrapped) == Err(UnknownHash)
    ensures release.Some? && release.value.isRsa && DecodeRaw(wrapped).Ok? && IsTrimmed(c, DecodeRaw(wrapped).value)
            && HashesByName(oaep, mgf1) == Some(h) ==>
              && (release.value.decrypt(h, c) == None ==> Unwrap(release, oaep, mgf1, wrapped) == Err(RsaFailed))
              && (release.value.decrypt(h, c).Some? ==>
                    (Unwrap(release, oaep, mgf1, wrapped) == Ok(v) <==>
                     IsTrimmed(v, release.value.decrypt(h, c).value)))
  {
    hide DecodeRaw, HashesByName, IsTrimmed, TrimRight;
    if DecodeRaw(wrapped).Ok? {
      TrimIff(c, DecodeRaw(wrapped).value);
    }
    if release.Some? && release.value.decrypt(h, c).Some? {
      TrimIff(v, release.value.decrypt(h, c).value);
    }
  }
}
