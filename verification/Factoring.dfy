/** How lines are factored, said once more without the cursor: the shape a list of pieces has to
    have, which only one list has for each line. */
module Factoring {
  import opened Bytes
  import opened Splitter
  import R = Requests
  import W = WrongRuns

  /** A line opens with a segment: a key up to its first `=`, a nonempty value without comma,
      space or line feed, and one of these three. */
  predicate Opens(a: bytes, l: bytes, d: byte) {
    && a != [] && a[|a| - 1] == 61 && (forall i :: 0 <= i < |a| - 1 ==> a[i] != 61)
    && l != [] && (forall b <- l :: b != 44 && b != 32 && b != 10)
    && (d == 44 || d == 32 || d == 10)
  }

  ghost predicate Segmented(s: bytes) {
    exists a, l, d, rest :: Opens(a, l, d) && s == a + l + [d] + rest
  }

  /** The pieces of what is left of a line: a segment as long as one opens it, and after a comma
      again; after a space the rest is raw, and a line feed ends the line. What no segment opens
      is raw. */
  ghost predicate Factors(ps: seq<Piece>, s: bytes)
    decreases |ps|, 0
  {
    && ps != []
    && match ps[0]
       case Raw(data) => ps == [Raw(s)] && !Segmented(s)
       case Seg(a, l, b) =>
         && |b| == 1 && Opens(a, l, b[0])
         && exists rest :: s == a + l + b + rest && Follows(b[0], ps[1..], rest)
  }

  ghost predicate Follows(d: byte, ps: seq<Piece>, rest: bytes)
    decreases |ps|, 1
  {
    if d == 44 then Factors(ps, rest) else if d == 32 then ps == [Raw(rest)] else ps == []
  }

  lemma SegmentedHere(s: bytes)
    requires SegmentEnd(s) >= 0
    ensures var p, rest := Segment(s), s[SegmentEnd(s) + 1..];
            && p.Seg? && |p.constB| == 1 && p.constB[0] == s[SegmentEnd(s)] && Opens(p.constA, p.lane, p.constB[0])
            && s == p.constA + p.lane + p.constB + rest
    ensures Segmented(s) && IsDelim(s[SegmentEnd(s)])
  {
    hide IndexByte, FirstDelim;
    SegmentExact(s);
    var p, end, v := Segment(s), SegmentEnd(s), IndexByte(s, EQUALS) + 1;
    forall i | 0 <= i < v - 1
      ensures s[i] != 61
    {
      assert s[..v - 1][i] == s[i];
    }
    forall b | b in p.lane
      ensures b != 44 && b != 32 && b != 10
    {
      var k :| 0 <= k < |p.lane| && p.lane[k] == b;
      assert s[v..][k] == b;
    }
    assert s == s[..end + 1] + s[end + 1..];
    assert Opens(p.constA, p.lane, p.constB[0]) && p.constB == [p.constB[0]];
  }

  lemma OpenedHere(a: bytes, l: bytes, d: byte, rest: bytes)
    requires Opens(a, l, d)
    ensures var s := a + l + [d] + rest;
            && SegmentEnd(s) >= 0 && Segment(s) == Seg(a, l, [d])
            && s[SegmentEnd(s)] == d && s[SegmentEnd(s) + 1..] == rest
  {
    var p := Seg(a, l, [d]);
    assert BodyShape(p) by {
      assert forall i :: 0 <= i < |a| - 1 ==> a[..|a| - 1][i] == a[i] != EQUALS;
    }
    W.SegmentHere(p, rest);
    hide SegmentEnd, Segment;
    assert PieceBytes(p) + rest == a + l + [d] + rest;
  }

  /** Exactly one list of pieces factors a line, and it is the one that goes out. */
  lemma {:induction false} FactorsExact(ps: seq<Piece>, s: bytes)
    requires OneLine(s)
    ensures KeyValuePieces(s) == ps <==> Factors(ps, s)
    decreases |s|
  {
    hide SegmentEnd, Segment, KeyValuePieces, OneLine, AfterSegment, Follows, Opens;
    KeyValueStep(s);
    if SegmentEnd(s) < 0 {
      NotSegmented(s);
      if Factors(ps, s) && ps[0].Seg? {
        SegmentFirst(ps, s);
      }
    } else {
      var p, end := Segment(s), SegmentEnd(s);
      var rest := s[end + 1..];
      SegmentedHere(s);
      LineRest(s, end);
      if ps != [] {
        if s[end] == COMMA {
          FactorsExact(ps[1..], rest);
        }
        FollowsExact(s, ps[1..]);
        if Factors(ps, s) {
          FirstSegment(ps, s);
          assert ps == [p] + ps[1..];
        }
        if ps[0] == p && Follows(s[end], ps[1..], rest) {
          FactorsFrom(ps, s, rest);
        }
      }
    }
  }

  /** What follows the first segment, given as much for the rest of the line after a comma. */
  lemma FollowsExact(s: bytes, more: seq<Piece>)
    requires SegmentEnd(s) >= 0 && IsDelim(s[SegmentEnd(s)])
    requires var rest := s[SegmentEnd(s) + 1..];
             s[SegmentEnd(s)] == COMMA ==> (KeyValuePieces(rest) == more <==> Factors(more, rest))
    ensures AfterSegment(s) == more <==> Follows(s[SegmentEnd(s)], more, s[SegmentEnd(s) + 1..])
  {
    hide SegmentEnd, KeyValuePieces, Factors;
  }

  lemma FactorsFrom(ps: seq<Piece>, s: bytes, rest: bytes)
    requires ps != [] && ps[0].Seg? && |ps[0].constB| == 1
    requires Opens(ps[0].constA, ps[0].lane, ps[0].constB[0]) && Follows(ps[0].constB[0], ps[1..], rest)
    requires s == ps[0].constA + ps[0].lane + ps[0].constB + rest
    ensures Factors(ps, s)
  {
    hide Opens, Follows;
  }

  lemma SegmentFirst(ps: seq<Piece>, s: bytes)
    requires Factors(ps, s) && ps[0].Seg?
    ensures Segmented(s)
  {
    hide Opens, Follows;
    var p := ps[0];
    var rest :| s == p.constA + p.lane + p.constB + rest && Follows(p.constB[0], ps[1..], rest);
    assert p.constB == [p.constB[0]];
  }

  lemma FirstSegment(ps: seq<Piece>, s: bytes)
    requires Factors(ps, s) && Segmented(s)
    ensures SegmentEnd(s) >= 0 && ps[0] == Segment(s) && Follows(s[SegmentEnd(s)], ps[1..], s[SegmentEnd(s) + 1..])
  {
    hide Opens, Follows, SegmentEnd, Segment;
    var p := ps[0];
    var rest :| s == p.constA + p.lane + p.constB + rest && Follows(p.constB[0], ps[1..], rest);
    assert p.constB == [p.constB[0]];
    OpenedHere(p.constA, p.lane, p.constB[0], rest);
  }

  lemma NotSegmented(s: bytes)
    requires SegmentEnd(s) < 0
    ensures !Segmented(s)
  {
    if Segmented(s) {
      var a, l, d, rest :| Opens(a, l, d) && s == a + l + [d] + rest;
      OpenedHere(a, l, d, rest);
    }
  }

  /** The pieces of a body, one line at a time: a line feed alone goes out raw, and so does what
      is left after the last one. */
  lemma BodyFactors(line: bytes, rest: bytes, ps: seq<Piece>)
    requires OneLine(line)
    ensures BodyPieces(line + rest) == LinePieces(line) + BodyPieces(rest)
    ensures LinePieces(line) == ps <==> if line == [10] then ps == [Raw(line)] else Factors(ps, line)
    ensures BodyPieces([]) == [] && (rest != [] && LF !in rest ==> BodyPieces(rest) == [Raw(rest)])
  {
    var j := |line| - 1;
    var s := line + rest;
    assert s[..j] == line[..j] && s[j] == LF;
    IndexByteIs(s, LF, j);
    hide IndexByte;
    assert s[..j + 1] == line && s[j + 1..] == rest;
    hide KeyValuePieces, Factors;
    FactorsExact(ps, line);
    assert |line| < 2 ==> line == [10];
  }

  // ---- header lines ----

  /** A header line opens with a name: something, then its first colon and space. */
  predicate Named(a: bytes) {
    && |a| >= 3 && a[|a| - 2] == 58 && a[|a| - 1] == 32
    && forall i :: 0 <= i < |a| - 2 ==> !(a[i] == 58 && a[i + 1] == 32)
  }

  /** A header line is a name, a value and CRLF, in the only way it can be; every other line
      is raw. */
  lemma HeaderLineExact(line: bytes, p: Piece)
    ensures HeaderLinePiece(line) == p <==>
            match p
            case Seg(a, l, b) => Named(a) && b == [13, 10] && line == a + l + b
            case Raw(data) => data == line && !exists a, l :: Named(a) && line == a + l + [13, 10]
  {
    hide HeaderLinePiece;
    var q := HeaderLinePiece(line);
    if q.Seg? {
      NamedIs(q.constA);
      assert line == q.constA + q.lane + [13, 10];
    }
    forall a, l | Named(a) && line == a + l + [13, 10]
      ensures q == Seg(a, l, [13, 10])
    {
      NamedIs(a);
      R.SegLine(a, l);
    }
  }

  lemma NamedIs(a: bytes)
    ensures Named(a) <==> NameShape(a)
  {
    if |a| >= 3 {
      var n := |a|;
      assert a[n - 2..] == [a[n - 2], a[n - 1]];
      forall i | 0 <= i < n - 2
        ensures MatchAt(a, COLON_SPACE, i) <==> a[i] == 58 && a[i + 1] == 32
      {
        assert a[i..i + 2] == [a[i], a[i + 1]];
      }
    }
  }
}
