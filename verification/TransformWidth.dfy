/**
 The streaming bit regrouper the codecs instantiate: an input iterator that hands out
 bitsOut-bit digits taken from a sequence of bitsIn-bit digits. A negative element of the
 base stands for one whose dereference throws.
 */
module TransformWidth {
  import opened Bits

  class Iterator {
    const base: seq<int>
    const bitsIn: nat
    const bitsOut: nat
    var pos: nat
    var bufferIn: nat
    var remainingBits: nat
    var endOfSequence: bool

    ghost predicate Valid()
      reads this
    {
      && bitsIn > 0 && bitsOut > 0
      && pos <= |base|
      && (endOfSequence ==> pos == |base|)
      && AllRead(base, pos)
      && remainingBits < bitsIn
    }

    /** The bits not handed out yet: those left in the input buffer, then the unread digits. */
    ghost function Pending(): seq<bool>
      reads this
      requires pos <= |base|
    {
      BitsOf(bufferIn, remainingBits) + Spread(base[pos..], bitsIn)
    }

    constructor (base: seq<int>, bitsIn: nat, bitsOut: nat)
      requires bitsIn > 0 && bitsOut > 0
      ensures Valid() && pos == 0 && remainingBits == 0 && !endOfSequence
      ensures this.base == base && this.bitsIn == bitsIn && this.bitsOut == bitsOut
      ensures Pending() == Spread(base, bitsIn)
    {
      this.base, this.bitsIn, this.bitsOut := base, bitsIn, bitsOut;
      pos, bufferIn, remainingBits, endOfSequence := 0, 0, 0, false;
      new;
      assert base[0..] == base;
    }

    lemma PendingLength()
      requires pos <= |base|
      ensures bitsIn == 6 ==> |Pending()| == remainingBits + 6 * (|base| - pos)
      ensures bitsIn == 8 ==> |Pending()| == remainingBits + 8 * (|base| - pos)
      ensures remainingBits == 0 && pos == |base| ==> Pending() == []
    {
      SpreadLength(base[pos..], bitsIn);
    }

    /** Comparison with the end iterator. */
    method AtEnd() returns (atEnd: bool)
      requires Valid()
      modifies this`endOfSequence
      ensures Valid() && Pending() == old(Pending())
      ensures endOfSequence == (old(endOfSequence) || (bitsIn >= bitsOut && pos == |base|))
      ensures atEnd <==> pos == |base| && (bitsIn < bitsOut || remainingBits == 0)
    {
      if bitsIn < bitsOut {
        atEnd := pos == |base|;
      } else if pos == |base| {
        endOfSequence := true;
        atEnd := remainingBits == 0;
      } else {
        atEnd := false;
      }
    }

    /** Loads the empty input buffer: with the next digit, or with zeros once the end was seen. */
    method Load(missing: nat) returns (ok: bool)
      requires bitsIn > 0 && missing > 0 && remainingBits == 0 && pos <= |base| && AllRead(base, pos)
      requires endOfSequence ==> pos == |base|
      modifies this
      ensures endOfSequence == old(endOfSequence) && old(pos) <= pos <= |base| && AllRead(base, pos)
      ensures ok <==> endOfSequence || (old(pos) < |base| && base[old(pos)] >= 0)
      ensures !ok ==> pos == old(pos)
      ensures ok && endOfSequence
        ==> pos == |base| && remainingBits == missing && old(Pending()) == [] && Pending() == Falses(missing)
      ensures ok && !endOfSequence
        ==> pos == old(pos) + 1 && remainingBits == bitsIn && Pending() == old(Pending())
    {
      ok := true;
      if endOfSequence {
        bufferIn := 0;
        remainingBits := missing;
        ZeroBits(missing);
        assert Pending() == Falses(missing) + [];
      } else if pos == |base| || base[pos] < 0 {
        ok := false;
      } else {
        assert base[pos..][1..] == base[pos + 1..];
        bufferIn := base[pos];
        pos := pos + 1;
        remainingBits := bitsIn;
      }
    }

    /** Takes the i most significant bits left in the input buffer. */
    method Take(i: nat) returns (j: nat)
      requires i <= remainingBits && pos <= |base|
      modifies this`remainingBits
      ensures remainingBits == old(remainingBits) - i
      ensures old(Pending()) == BitsOf(j, i) + Pending()
    {
      var shifted := ShiftRight(bufferIn, remainingBits - i);
      j := LowBits(shifted, i);
      SplitBits(bufferIn, i, remainingBits - i);
      MaskedBits(shifted, i);
      remainingBits := remainingBits - i;
    }

    /**
     A digit being filled: so many of its bits are missing, the others are the first of the supply,
     which is what was pending or, once the end was reached for, that and the zeros of the fill.
     */
    ghost predicate Filling(pending: seq<bool>, all: seq<bool>, missing: nat, out: nat)
      reads this
    {
      && bitsIn > 0 && pos <= |base|
      && (endOfSequence ==> pos == |base|)
      && AllRead(base, pos)
      && missing <= bitsOut && bitsOut - missing <= |all|
      && (if all == pending then remainingBits < bitsIn else
            && endOfSequence && |pending| < bitsOut && remainingBits == missing
            && all == pending + Falses(bitsOut - |pending|))
      && Pending() == all[bitsOut - missing..]
      && Collected(out, bitsOut - missing, all)
    }

    /** Has something in the input buffer to take bits from. */
    method Supply(missing: nat, out: nat, ghost pending: seq<bool>, ghost all: seq<bool>)
      returns (ok: bool, ghost all': seq<bool>)
      requires missing > 0 && Filling(pending, all, missing, out)
      modifies this
      ensures old(pos) <= pos <= |base| && endOfSequence == old(endOfSequence)
      ensures !ok ==> (pos < |base| && base[pos] < 0) || (pos == |base| && !endOfSequence && |pending| < bitsOut)
      ensures ok ==> remainingBits > 0 && bitsOut - missing <= |all'| && Pending() == all'[bitsOut - missing..]
      ensures ok ==> bitsIn > 0 && AllRead(base, pos) && (endOfSequence ==> pos == |base|)
      ensures ok ==> Collected(out, bitsOut - missing, all')
      ensures ok ==> if all' == pending then remainingBits <= bitsIn else
                       && endOfSequence && |pending| < bitsOut && remainingBits == missing
                       && all' == pending + Falses(bitsOut - |pending|)
    {
      all' := all;
      ok := true;
      if remainingBits == 0 {
        ok := Load(missing);
        if ok && endOfSequence {
          assert |all| == bitsOut - missing && all == pending;
          all' := all + Falses(missing);
          assert all'[bitsOut - missing..] == Falses(missing);
          assert all'[..bitsOut - missing] == all[..bitsOut - missing];
        }
      }
    }

    /** One pass of the loop: supply, take as many bits as there are or as are missing, append them. */
    method Step(missing: nat, bufferOut: nat, ghost pending: seq<bool>, ghost all: seq<bool>)
      returns (ok: bool, missing': nat, bufferOut': nat, ghost all': seq<bool>)
      requires missing > 0 && Filling(pending, all, missing, bufferOut)
      modifies this
      ensures old(pos) <= pos <= |base| && endOfSequence == old(endOfSequence)
      ensures !ok ==> (pos < |base| && base[pos] < 0) || (pos == |base| && !endOfSequence && |pending| < bitsOut)
      ensures ok ==> missing' < missing && Filling(pending, all', missing', bufferOut')
    {
      hide Append, Falses, Spread, BitsOf, Collected;
      missing', bufferOut' := missing, bufferOut;
      ok, all' := Supply(missing, bufferOut, pending, all);
      if !ok {
        return;
      }
      var i := if missing < remainingBits then missing else remainingBits;
      ghost var before := Pending();
      var j := Take(i);
      CollectMore(bufferOut, bitsOut - missing, j, i, before, Pending(), all');
      bufferOut' := Append(bufferOut, j, i);
      missing' := missing - i;
    }

    /**
     Hands out the next digit: the first bitsOut pending bits, zero-filled once the end was seen.
     It throws exactly when it has to dereference a bad element or to read past the end.
     */
    method Fill() returns (ok: bool, bufferOut: nat)
      requires Valid()
      modifies this
      ensures old(pos) <= pos <= |base| && endOfSequence == old(endOfSequence)
      ensures !ok ==> (pos < |base| && base[pos] < 0)
                      || (pos == |base| && !endOfSequence && old(|Pending()|) < bitsOut)
      ensures ok ==> Valid()
      ensures ok && old(|Pending()|) >= bitsOut
        ==> bufferOut == Value(old(Pending())[..bitsOut]) && Pending() == old(Pending())[bitsOut..]
      ensures ok && old(|Pending()|) < bitsOut
        ==> endOfSequence && Pending() == []
            && bufferOut == Value(old(Pending()) + Falses(bitsOut - old(|Pending()|)))
    {
      ghost var pending := Pending();
      ghost var all := pending;
      var missing: nat := bitsOut;
      ok, bufferOut := true, 0;
      while missing > 0
        invariant old(pos) <= pos <= |base| && endOfSequence == old(endOfSequence)
        invariant ok && Filling(pending, all, missing, bufferOut)
      {
        ok, missing, bufferOut, all := Step(missing, bufferOut, pending, all);
        if !ok {
          return;
        }
      }
      ValueOfBits(bufferOut, bitsOut);
      assert all == pending || all[..bitsOut] == all;
    }
  }

  /** None of the first n elements throws. */
  ghost predicate AllRead(base: seq<int>, n: nat)
    requires n <= |base|
  {
    forall i :: 0 <= i < n ==> base[i] >= 0
  }

  /** The value collected so far holds the first bits of the supply. */
  ghost predicate Collected(out: nat, done: nat, all: seq<bool>) {
    done <= |all| && out < Pow2(done) && BitsOf(out, done) == all[..done]
  }

  lemma CollectMore(out: nat, done: nat, j: nat, i: nat, before: seq<bool>, after: seq<bool>, all: seq<bool>)
    requires Collected(out, done, all)
    requires before == BitsOf(j, i) + after && before == all[done..]
    ensures Collected(Append(out, j, i), done + i, all)
    ensures after == all[done + i..]
  {
    JoinBits(out, j, done, i);
    assert |before| >= i;
    assert all[..done + i] == all[..done] + before[..i];
    assert all[done + i..] == before[i..];
  }

  // ---------- running the iterator to its end ----------

  /** Zero bits that fill up the last sextet of n bytes. */
  function FillBits(n: nat): nat {
    if n % 3 == 0 then 0 else if n % 3 == 1 then 4 else 2
  }

  /** One digit handed out keeps what was written and what is pending in step. */
  lemma StreamStep(all: seq<bool>, written: seq<int>, pending: seq<bool>, d: int, next: seq<bool>, w: nat)
    requires w > 0 && |pending| >= w
    requires Regroup(all, w) == written + Regroup(pending, w)
    requires d == Value(pending[..w]) && next == pending[w..]
    ensures Regroup(all, w) == (written + [d]) + Regroup(next, w)
  {
    Associative(written, [d], Regroup(next, w));
  }

  lemma RegroupLast(b: seq<bool>, w: nat)
    requires w > 0
    ensures |b| == w ==> Regroup(b, w) == [Value(b)]
    ensures |b| < w ==> Regroup(b, w) == []
  {
    if |b| == w {
      assert b[..w] == b && b[w..] == [];
    }
  }

  lemma FillBitsFill(n: nat) returns (k: nat)
    ensures 8 * n + FillBits(n) == 6 * k && FillBits(n) <= 4
  {
    k := (4 * n + 2) / 3;
  }

  lemma PaddedStep(all: seq<bool>, written: seq<int>, pending: seq<bool>, owed: nat,
                   d: int, next: seq<bool>, owes: nat)
    requires Regroup(all, 6) == written + Regroup(pending + Falses(owed), 6)
    requires if |pending| < 6
             then |pending| + owed == 6 && owes == 0 && next == [] && d == Value(pending + Falses(6 - |pending|))
             else owes == owed && next == pending[6..] && d == Value(pending[..6])
    ensures Regroup(all, 6) == (written + [d]) + Regroup(next + Falses(owes), 6)
  {
    hide Regroup, Value;
    var supply := pending + Falses(owed);
    assert supply[..6] == if |pending| < 6 then supply else pending[..6];
    assert supply[6..] == next + Falses(owes);
    StreamStep(all, written, supply, d, next + Falses(owes), 6);
  }

  /** Sextets out of bytes: all the bits, zero-filled up to a whole sextet. */
  method SextetsFromBytes(base: seq<int>) returns (digits: seq<int>)
    requires AllRead(base, |base|)
    ensures digits == Regroup(Spread(base, 8) + Falses(FillBits(|base|)), 6)
  {
    hide Regroup, Spread, BitsOf, Value;
    var it := new Iterator(base, 8, 6);
    digits := [];
    ghost var left := FillBitsFill(|base|);
    ghost var fill := FillBits(|base|);
    ghost var owed := fill;
    ghost var all := Spread(base, 8) + Falses(fill);
    SpreadLength(base, 8);
    var atEnd := it.AtEnd();
    while !atEnd
      invariant it.Valid() && fresh(it) && it.base == base && it.bitsIn == 8 && it.bitsOut == 6
      invariant atEnd <==> it.pos == |base| && it.remainingBits == 0
      invariant it.endOfSequence <==> it.pos == |base|
      invariant owed == fill || (owed == 0 && it.Pending() == [])
      invariant |it.Pending()| + owed == 6 * left
      invariant Regroup(all, 6) == digits + Regroup(it.Pending() + Falses(owed), 6)
      decreases left
    {
      it.PendingLength();
      ghost var pending, owed0 := it.Pending(), owed;
      assert |pending| > 0;
      assert |pending| < 6 ==> it.endOfSequence && |pending| + owed == 6;
      var ok, d := it.Fill();
      assert ok;
      if |pending| < 6 { owed := 0; }
      PaddedStep(all, digits, pending, owed0, d, it.Pending(), owed);
      digits := digits + [d];
      left := left - 1;
      atEnd := it.AtEnd();
    }
    it.PendingLength();
    RegroupLast(it.Pending() + Falses(owed), 6);
    assert digits + [] == digits;
  }

  /** The only bit count that leaves the decoder short of a byte with one sextet unread. */
  lemma ShortTail(n: nat, unread: nat, left: nat, k: nat)
    requires 0 < unread <= n && left + unread * 6 + 8 * k == 6 * n
    ensures left + unread * 6 < 8 ==> n % 4 == 1
  {
    if left + unread * 6 < 8 {
      assert unread == 1;
      assert left % 2 == 0;
    }
  }

  lemma WholeTail(n: nat, left: nat, k: nat)
    requires left < 6 && left + 8 * k == 6 * n
    ensures n % 4 != 1
  {
  }

  /** Bytes out of sextets; the read past the end happens exactly at length 1 modulo 4. */
  method BytesFromSextets(base: seq<int>) returns (ok: bool, digits: seq<int>)
    ensures ok <==> |base| % 4 != 1 && AllRead(base, |base|)
    ensures ok ==> digits == Regroup(Spread(base, 6), 8)
  {
    var it := new Iterator(base, 6, 8);
    digits := [];
    ghost var k := 0;
    SpreadLength(base, 6);
    var atEnd := it.AtEnd();
    while !atEnd
      invariant it.Valid() && fresh(it) && it.base == base && it.bitsIn == 6 && it.bitsOut == 8
      invariant atEnd <==> it.pos == |base|
      invariant !it.endOfSequence
      invariant |it.Pending()| + 8 * k == 6 * |base|
      invariant Regroup(Spread(base, 6), 8) == digits + Regroup(it.Pending(), 8)
      decreases |it.Pending()|
    {
      it.PendingLength();
      ShortTail(|base|, |base| - it.pos, it.remainingBits, k);
      ghost var pending := it.Pending();
      var d;
      ok, d := it.Fill();
      if !ok {
        return;
      }
      StreamStep(Spread(base, 6), digits, pending, d, it.Pending(), 8);
      digits := digits + [d];
      k := k + 1;
      atEnd := it.AtEnd();
    }
    it.PendingLength();
    WholeTail(|base|, it.remainingBits, k);
    RegroupLast(it.Pending(), 8);
    ok := true;
  }
}
