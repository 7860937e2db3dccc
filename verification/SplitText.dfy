/** Splitting a released token at its delimiter, by reading up to each in turn. */
module SplitText {
  import opened Bytes
  import Jwt

  /** The pieces between delimiters; nothing follows a delimiter at the end. */
  function Pieces(s: bytes, c: byte): (p: seq<bytes>)
    ensures forall i :: 0 <= i < |p| ==> c !in p[i]
  {
    if s == [] then
      []
    else
      match Jwt.FindFirst(s, c)
      case None => [s]
      case Some(i) => [s[..i]] + Pieces(s[i + 1..], c)
  }

  function Rejoin(p: seq<bytes>, c: byte): bytes {
    if p == [] then [] else if |p| == 1 then p[0] else p[0] + [c] + Rejoin(p[1..], c)
  }

  predicate EndsWith(s: bytes, c: byte) {
    s != [] && s[|s| - 1] == c
  }

  /** The pieces rejoin to the text, but for a delimiter at its end, which is lost. */
  lemma {:induction false} PiecesRejoin(s: bytes, c: byte)
    ensures Rejoin(Pieces(s, c), c) + (if EndsWith(s, c) then [c] else []) == s
    ensures |Pieces(s, c)| == Jwt.Count(s, c) + (if s == [] || EndsWith(s, c) then 0 else 1)
  {
    hide Rejoin, Pieces, Jwt.FindFirst, Jwt.Count;
    RejoinFirst([], [], c);
    Jwt.NoneToCount([], c);
    PiecesFirst(s, c);
    var first := Jwt.FindFirst(s, c);
    if s != [] && first.Some? {
      var rest := s[first.value + 1..];
      PiecesRejoin(rest, c);
      CountAround(s, c, first.value);
      PiecesFirst(rest, c);
      RejoinFirst(s[..first.value], Pieces(rest, c), c);
      Cut(s, first.value, rest, Pieces(rest, c), c);
    } else if s != [] {
      Jwt.NoneToCount(s, c);
      RejoinFirst(s, [], c);
      assert [s] + [] == [s];
      assert s[|s| - 1] in s;
    }
  }

  /** What the first delimiter leaves on either side. */
  lemma PiecesFirst(s: bytes, c: byte)
    ensures
      var first := Jwt.FindFirst(s, c);
      Pieces(s, c) ==
      if s == [] then [] else if first.None? then [s] else [s[..first.value]] + Pieces(s[first.value + 1..], c)
    ensures Pieces(s, c) == [] <==> s == []
  {
  }

  lemma RejoinFirst(piece: bytes, p: seq<bytes>, c: byte)
    ensures Rejoin([], c) == []
    ensures Rejoin([piece] + p, c) == if p == [] then piece else piece + [c] + Rejoin(p, c)
  {
    assert ([piece] + p)[1..] == p;
  }

  lemma Cut(s: bytes, i: nat, rest: bytes, p: seq<bytes>, c: byte)
    requires i < |s| && s[i] == c && rest == s[i + 1..] && (p == [] <==> rest == [])
    requires Rejoin(p, c) + (if EndsWith(rest, c) then [c] else []) == rest
    ensures
      (if p == [] then s[..i] else s[..i] + [c] + Rejoin(p, c)) + (if EndsWith(s, c) then [c] else []) == s
    ensures EndsWith(s, c) <==> rest == [] || EndsWith(rest, c)
  {
    hide Rejoin;
    assert s == s[..i] + [c] + rest;
  }

  lemma {:induction false} CountAround(s: bytes, c: byte, i: nat)
    requires i < |s| && s[i] == c && c !in s[..i]
    ensures Jwt.Count(s, c) == 1 + Jwt.Count(s[i + 1..], c)
  {
    if i > 0 {
      assert s[..i][0] == s[0];
      assert s[1..][..i - 1] == s[..i][1..] && s[1..][i..] == s[i + 1..];
      CountAround(s[1..], c, i - 1);
    }
  }

  /** A released token has three pieces exactly when it holds two dots and text after them, or three with none. */
  lemma ThreePiecesIff(s: bytes, c: byte)
    ensures |Pieces(s, c)| == 3 <==> Jwt.Count(s, c) == (if EndsWith(s, c) then 3 else 2)
  {
    PiecesRejoin(s, c);
  }

  /** Reading up to each delimiter in turn until the text is used up. */
  method SplitString(s: bytes, delim: byte) returns (result: seq<bytes>)
    ensures result == Pieces(s, delim)
  {
    result := [];
    var rest := s;
    while rest != []
      invariant result + Pieces(rest, delim) == Pieces(s, delim)
      decreases |rest|
    {
      var i := Jwt.FindFirst(rest, delim);
      var item := if i.Some? then rest[..i.value] else rest;
      var after := if i.Some? then rest[i.value + 1..] else [];
      assert Pieces(rest, delim) == [item] + Pieces(after, delim);
      assert result + ([item] + Pieces(after, delim)) == (result + [item]) + Pieces(after, delim);
      result, rest := result + [item], after;
    }
  }

  /** A fourth part that is empty goes unnoticed. */
  lemma EmptyFourthPartIsLost()
    ensures Pieces(Ascii("a.b.c."), '.' as int) == Pieces(Ascii("a.b.c"), '.' as int)
    ensures Pieces(Ascii("a.b.c."), '.' as int) == [['a' as int], ['b' as int], ['c' as int]]
  {
    hide Pieces;
    var a, b, c, dot := 'a' as int, 'b' as int, 'c' as int, '.' as int;
    PiecesStep(a, [b, dot, c, dot]);
    PiecesStep(b, [c, dot]);
    PiecesStep(c, []);
    PiecesStep(a, [b, dot, c]);
    PiecesStep(b, [c]);
    PiecesFirst([c], dot);
    PiecesFirst([], dot);
    assert Ascii("a.b.c.") == [a, dot] + [b, dot, c, dot];
    assert Ascii("a.b.c") == [a, dot] + [b, dot, c];
    assert [b, dot, c, dot] == [b, dot] + [c, dot];
    assert [b, dot, c] == [b, dot] + [c];
    assert [c, dot] == [c, dot] + [];
  }

  lemma PiecesStep(x: byte, rest: bytes)
    requires x != '.' as int
    ensures Pieces([x, '.' as int] + rest, '.' as int) == [[x]] + Pieces(rest, '.' as int)
  {
    var s := [x, '.' as int] + rest;
    assert s[..1] == [x];
    Jwt.FirstIs(s, '.' as int, 1);
    PiecesFirst(s, '.' as int);
    assert s[2..] == rest;
  }
}
