/** Fixed-width digits as bit strings, most significant bit first. */
module Bits {

  function Pow2(n: nat): (p: nat)
    ensures p >= 1
  {
    if n == 0 then 1 else 2 * Pow2(n - 1)
  }

  lemma Pow2Values()
    ensures Pow2(6) == 64 && Pow2(8) == 256
  {
    assert Pow2(3) == 8;
    assert Pow2(6) == 64;
  }

  /** The low w bits of v. */
  function BitsOf(v: nat, w: nat): (b: seq<bool>)
    ensures |b| == w
  {
    if w == 0 then [] else BitsOf(v / 2, w - 1) + [v % 2 == 1]
  }

  function Value(b: seq<bool>): nat {
    if b == [] then 0 else Value(b[..|b| - 1]) * 2 + (if b[|b| - 1] then 1 else 0)
  }

  lemma {:induction false} ValueBound(b: seq<bool>)
    ensures Value(b) < Pow2(|b|)
  {
    if b != [] { ValueBound(b[..|b| - 1]); }
  }

  function Falses(n: nat): (b: seq<bool>)
    ensures |b| == n
  {
    seq(n, _ => false)
  }

  lemma {:induction false} ValueOfBits(v: nat, w: nat)
    requires v < Pow2(w)
    ensures Value(BitsOf(v, w)) == v
  {
    if w > 0 {
      ValueOfBits(v / 2, w - 1);
      assert BitsOf(v, w)[..w - 1] == BitsOf(v / 2, w - 1);
    }
  }

  lemma {:induction false} BitsOfValue(b: seq<bool>)
    ensures BitsOf(Value(b), |b|) == b
  {
    if b != [] {
      BitsOfValue(b[..|b| - 1]);
    }
  }

  /** v >> n */
  function ShiftRight(v: nat, n: nat): nat {
    if n == 0 then v else ShiftRight(v / 2, n - 1)
  }

  /** v & ((1 << n) - 1) */
  function LowBits(v: nat, n: nat): (m: nat)
    ensures m < Pow2(n)
  {
    if n == 0 then 0 else LowBits(v / 2, n - 1) * 2 + v % 2
  }

  lemma {:induction false} SplitBits(v: nat, a: nat, b: nat)
    ensures BitsOf(v, a + b) == BitsOf(ShiftRight(v, b), a) + BitsOf(v, b)
  {
    if b == 0 {
      assert BitsOf(v, a) + [] == BitsOf(v, a);
    } else {
      SplitBits(v / 2, a, b - 1);
    }
  }

  /** (v << n) | (x & ((1 << n) - 1)) */
  function Append(v: nat, x: nat, n: nat): nat {
    if n == 0 then v else Append(v, x / 2, n - 1) * 2 + x % 2
  }

  lemma {:induction false} JoinBits(v: nat, x: nat, w: nat, n: nat)
    requires v < Pow2(w)
    ensures BitsOf(Append(v, x, n), w + n) == BitsOf(v, w) + BitsOf(x, n)
    ensures Append(v, x, n) < Pow2(w + n)
  {
    if n == 0 {
      assert BitsOf(v, w) + [] == BitsOf(v, w);
    } else {
      JoinBits(v, x / 2, w, n - 1);
    }
  }

  lemma {:induction false} MaskedBits(v: nat, n: nat)
    ensures BitsOf(LowBits(v, n), n) == BitsOf(v, n)
  {
    if n > 0 {
      MaskedBits(v / 2, n - 1);
    }
  }

  // ---------- strings of digits ----------

  /** The bits of a string of w-bit digits, in order; a negative digit counts as zero. */
  function Spread(s: seq<int>, w: nat): seq<bool> {
    if s == [] then [] else BitsOf(if s[0] < 0 then 0 else s[0], w) + Spread(s[1..], w)
  }

  /** Cuts a bit string into w-bit digits from the left and drops what is left over. */
  function Regroup(b: seq<bool>, w: nat): (d: seq<int>)
    requires w > 0
    decreases |b|
  {
    if |b| < w then [] else [Value(b[..w])] + Regroup(b[w..], w)
  }

  lemma {:induction false} SpreadLength(s: seq<int>, w: nat)
    ensures |Spread(s, w)| == |s| * w
  {
    if s != [] {
      SpreadLength(s[1..], w);
      assert |s| * w == |s[1..]| * w + w;
    }
  }

  lemma {:induction false} RegroupLength(b: seq<bool>, w: nat)
    requires w > 0
    ensures |Regroup(b, w)| * w <= |b| < |Regroup(b, w)| * w + w
    decreases |b|
  {
    if |b| >= w {
      RegroupLength(b[w..], w);
      var n := |Regroup(b[w..], w)|;
      assert (n + 1) * w == n * w + w;
    }
  }

  lemma {:induction false} RegroupDigits(b: seq<bool>, w: nat)
    requires w > 0
    ensures AreDigits(Regroup(b, w), w)
    decreases |b|
  {
    if |b| >= w {
      ValueBound(b[..w]);
      RegroupDigits(b[w..], w);
    }
  }

  ghost predicate AreDigits(s: seq<int>, w: nat) {
    forall i :: 0 <= i < |s| ==> 0 <= s[i] < Pow2(w)
  }

  lemma {:induction false} SpreadAppend(s: seq<int>, t: seq<int>, w: nat)
    ensures Spread(s + t, w) == Spread(s, w) + Spread(t, w)
  {
    if s == [] {
      assert s + t == t;
    } else {
      assert (s + t)[1..] == s[1..] + t;
      SpreadAppend(s[1..], t, w);
    }
  }

  lemma {:induction false} SpreadZeros(n: nat, w: nat)
    ensures Spread(seq(n, _ => 0), w) == Falses(n * w)
  {
    if n > 0 {
      assert seq(n, _ => 0)[1..] == seq(n - 1, _ => 0);
      SpreadZeros(n - 1, w);
      ZeroBits(w);
      assert n * w == w + (n - 1) * w;
    }
  }

  lemma {:induction false} ZeroBits(w: nat)
    ensures BitsOf(0, w) == Falses(w)
  {
    if w > 0 { ZeroBits(w - 1); }
  }

  lemma Associative<T>(a: seq<T>, b: seq<T>, c: seq<T>)
    ensures a + (b + c) == (a + b) + c
  {
  }

  lemma RegroupFirst(d: nat, w: nat, rest: seq<bool>)
    requires w > 0 && d < Pow2(w)
    ensures Regroup(BitsOf(d, w) + rest, w) == [d] + Regroup(rest, w)
  {
    var b := BitsOf(d, w) + rest;
    assert b[..w] == BitsOf(d, w) && b[w..] == rest;
    ValueOfBits(d, w);
  }

  /** Regrouping at the same width recovers the digits and goes on with the rest. */
  lemma {:induction false} RegroupSpread(s: seq<int>, w: nat, rest: seq<bool>)
    requires w > 0 && AreDigits(s, w)
    ensures Regroup(Spread(s, w) + rest, w) == s + Regroup(rest, w)
  {
    if s == [] {
      assert Spread(s, w) + rest == rest;
    } else {
      RegroupSpread(s[1..], w, rest);
      RegroupFirst(s[0], w, Spread(s[1..], w) + rest);
      Associative(BitsOf(s[0], w), Spread(s[1..], w), rest);
      Associative([s[0]], s[1..], Regroup(rest, w));
      assert [s[0]] + s[1..] == s;
    }
  }

  /** Regrouping a whole number of digits loses no bit. */
  lemma {:induction false} SpreadRegroup(b: seq<bool>, w: nat)
    requires w > 0 && |b| == |Regroup(b, w)| * w
    ensures Spread(Regroup(b, w), w) == b
    decreases |b|
  {
    if |b| >= w {
      var n := |Regroup(b, w)|;
      assert n * w == (n - 1) * w + w;
      SpreadRegroup(b[w..], w);
      BitsOfValue(b[..w]);
      assert Regroup(b, w)[1..] == Regroup(b[w..], w);
    }
  }
}
