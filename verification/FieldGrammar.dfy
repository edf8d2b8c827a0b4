/** Header text, spelled out: what trimming, letter case and splitting come to, when a line gives a
    field its value, what a request line is, and which framing a head asks for. */
module FieldGrammar {
  import opened Bytes
  import opened Numbers
  import opened HttpRequest
  import D = DecoderSpec
  import G = ChunkGrammar

  // ---- white space and letter case ----

  /** Tab, line feed, vertical tab, form feed, carriage return, space. */
  predicate White(b: byte) {
    b in {9, 10, 11, 12, 13, 32}
  }

  /** `t` is `s` without the white space around it. */
  ghost predicate Trimmed(s: bytes, t: bytes) {
    (t == [] || (!White(t[0]) && !White(t[|t| - 1])))
    && exists a, b :: s == a + t + b && (forall x <- a :: White(x)) && (forall x <- b :: White(x))
  }

  lemma TrimSpaceExact(s: bytes, t: bytes)
    ensures TrimSpace(s) == t <==> Trimmed(s, t)
  {
    TrimSpaceTrims(s);
    if Trimmed(s, t) {
      TrimmedOnce(s, t);
    }
  }

  lemma TrimSpaceTrims(s: bytes)
    ensures Trimmed(s, TrimSpace(s))
  {
    var a, b := Margins(s);
    SpacesWhite(a);
    SpacesWhite(b);
    hide TrimSpace, G.Spaces;
  }

  lemma Margins(s: bytes) returns (a: bytes, b: bytes)
    ensures var t := TrimSpace(s);
            && s == a + t + b && G.Spaces(a) && G.Spaces(b)
            && (t == [] || (!White(t[0]) && !White(t[|t| - 1])))
  {
    hide TrimLeft, TrimRight, G.Spaces;
    var k := G.TrimLeftIs(s);
    var u := s[k..];
    var j := G.TrimRightIs(u);
    a, b := s[..k], u[j..];
    assert s == a + u;
    Assoc(a, u[..j], b);
  }

  lemma SpacesWhite(s: bytes)
    requires G.Spaces(s)
    ensures forall x <- s :: White(x)
  {}

  lemma TrimmedOnce(s: bytes, t: bytes)
    requires Trimmed(s, t)
    ensures TrimSpace(s) == t
  {
    hide TrimLeft, TrimRight;
    var a, b :| s == a + t + b && (forall x <- a :: White(x)) && (forall x <- b :: White(x));
    if t == [] {
      assert s == a + b;
      AllWhite(s);
    } else {
      Assoc(a, t, b);
      G.LeadTrimmed(a, t + b);
      TrimRightSuffix(t, b);
    }
  }

  lemma AllWhite(s: bytes)
    requires forall x <- s :: White(x)
    ensures TrimSpace(s) == []
  {
    hide TrimLeft, TrimRight;
    assert s + [] == s;
    G.LeadTrimmed(s, []);
    var j := G.TrimRightIs([]);
  }

  /** The two bytes are the same, or one letter in two cases. */
  predicate SameButCase(x: byte, y: byte) {
    || x == y
    || (65 <= x as int <= 90 && y as int == x as int + 32)
    || (65 <= y as int <= 90 && x as int == y as int + 32)
  }

  lemma LowerExact(s: bytes, t: bytes)
    ensures ToLower(s) == ToLower(t) <==> |s| == |t| && forall i :: 0 <= i < |s| ==> SameButCase(s[i], t[i])
    ensures forall b <- ToLower(s) :: !(65 <= b <= 90)
  {
    if ToLower(s) == ToLower(t) {
      assert forall i :: 0 <= i < |s| ==> LowerByte(s[i]) == ToLower(t)[i];
    }
  }

  // ---- fields ----

  /** A header line gives a field this value: blanks aside, and in lower case, it is the field's
      name and then, blanks aside again, the value. */
  ghost predicate Gives(l: bytes, key: bytes, v: bytes) {
    exists t, u :: Trimmed(l + CRLF, t) && ToLower(t) == key + u && Trimmed(u, v)
  }

  lemma FieldValueExact(l: bytes, key: bytes, v: bytes)
    ensures FieldValue(l, key) == Some(v) <==> Gives(l, key, v)
  {
    hide TrimSpace, ToLower, Trimmed;
    if FieldValue(l, key) == Some(v) {
      var t := TrimSpace(l + CRLF);
      var u := ToLower(t)[|key|..];
      TrimSpaceExact(l + CRLF, t);
      TrimSpaceExact(u, v);
      assert ToLower(t) == key + u;
    }
    if Gives(l, key, v) {
      var t, u :| Trimmed(l + CRLF, t) && ToLower(t) == key + u && Trimmed(u, v);
      TrimSpaceExact(l + CRLF, t);
      TrimSpaceExact(u, v);
      assert (key + u)[|key|..] == u;
    }
  }

  lemma GivesNone(l: bytes, key: bytes)
    requires forall v :: !Gives(l, key, v)
    ensures FieldValue(l, key) == None
  {
    hide FieldValue, Gives;
    if FieldValue(l, key).Some? {
      FieldValueExact(l, key, FieldValue(l, key).value);
    }
  }

  /** A field no line gives a value has the empty one. */
  lemma {:induction false} LastFieldNone(ls: seq<bytes>, key: bytes)
    requires forall l <- ls, v :: !Gives(l, key, v)
    ensures LastField(ls, key) == []
  {
    hide FieldValue, Gives;
    if ls != [] {
      GivesNone(ls[|ls| - 1], key);
      assert forall k <- ls[..|ls| - 1] :: k in ls;
      LastFieldNone(ls[..|ls| - 1], key);
    }
  }

  /** Otherwise the last line that gives one decides. */
  lemma {:induction false} LastFieldExact(ls: seq<bytes>, key: bytes, i: nat, v: bytes)
    requires i < |ls| && Gives(ls[i], key, v)
    requires forall j, w :: i < j < |ls| ==> !Gives(ls[j], key, w)
    ensures LastField(ls, key) == v
  {
    hide FieldValue, Gives;
    var init, l := ls[..|ls| - 1], ls[|ls| - 1];
    if i == |ls| - 1 {
      FieldValueExact(l, key, v);
    } else {
      GivesNone(l, key);
      forall j, w | i < j < |init|
        ensures !Gives(init[j], key, w)
      {
        assert init[j] == ls[j];
      }
      LastFieldExact(init, key, i, v);
    }
  }

  /** A line declares a length to the decoder when it starts, untrimmed and in any letter case,
      with the name, and blanks aside the rest is a number that is not negative. */
  lemma DeclaredExact(l: bytes, n: int)
    ensures D.DeclaredLength(l) == Some(n) <==>
            && CONTENT_LENGTH <= ToLower(l) && n >= 0
            && exists v :: Trimmed(l[|CONTENT_LENGTH|..], v) && ParseInt(v, 10) == Some(n)
  {
    hide TrimSpace, ParseInt, Trimmed;
    if CONTENT_LENGTH <= ToLower(l) {
      var rest := l[|CONTENT_LENGTH|..];
      TrimSpaceExact(rest, TrimSpace(rest));
      forall v | Trimmed(rest, v)
        ensures v == TrimSpace(rest)
      {
        TrimSpaceExact(rest, v);
      }
    }
  }

  /** A name may be written in any letter case. */
  lemma CaseBlind(l: bytes, m: bytes, key: bytes)
    requires |l| == |m| && forall i :: 0 <= i < |l| ==> SameButCase(l[i], m[i])
    ensures FieldValue(l, key) == FieldValue(m, key)
  {
    var s, t := l + CRLF, m + CRLF;
    assert forall i :: 0 <= i < |s| ==> SameButCase(s[i], t[i]);
    TrimsAlike(s, t);
    LowerExact(TrimSpace(s), TrimSpace(t));
    hide TrimSpace, ToLower;
  }

  lemma {:induction false} TrimsAlike(s: bytes, t: bytes)
    requires |s| == |t| && forall i :: 0 <= i < |s| ==> SameButCase(s[i], t[i])
    ensures var x, y := TrimSpace(s), TrimSpace(t);
            |x| == |y| && forall i :: 0 <= i < |x| ==> SameButCase(x[i], y[i])
    decreases |s|
  {
    if s != [] && IsSpace(s[0]) {
      TrimsAlike(s[1..], t[1..]);
    } else {
      TailsAlike(s, t);
    }
  }

  lemma {:induction false} TailsAlike(s: bytes, t: bytes)
    requires |s| == |t| && forall i :: 0 <= i < |s| ==> SameButCase(s[i], t[i])
    ensures var x, y := TrimRight(s), TrimRight(t);
            |x| == |y| && forall i :: 0 <= i < |x| ==> SameButCase(x[i], y[i])
    decreases |s|
  {
    if s != [] && IsSpace(s[|s| - 1]) {
      TailsAlike(s[..|s| - 1], t[..|t| - 1]);
    }
  }

  // ---- the request line ----

  /** How many separators text holds. */
  function Count(s: bytes, b: byte): nat {
    if s == [] then 0 else (if s[0] == b then 1 else 0) + Count(s[1..], b)
  }

  /** The parts with the separator put back between them. */
  function Joined(parts: seq<bytes>, b: byte): bytes
    requires parts != []
  {
    if |parts| == 1 then parts[0] else parts[0] + [b] + Joined(parts[1..], b)
  }

  /** Splitting at single bytes loses nothing and splits everywhere. */
  lemma {:induction false} SplitExact(s: bytes, b: byte)
    ensures var parts := Split(s, [b]);
            Joined(parts, b) == s && forall p <- parts :: b !in p
    decreases |s|
  {
    hide Index, Split;
    var i := Index(s, [b]);
    SplitStep(s, b);
    if i >= 0 {
      assert s[i..i + 1] == [s[i]];
      assert s == s[..i] + [b] + s[i + 1..];
      SplitExact(s[i + 1..], b);
      var parts, more := Split(s, [b]), Split(s[i + 1..], [b]);
      assert parts[0] == s[..i] && parts[1..] == more;
      assert b !in s[..i] by {
        NoneThere(s, b, i);
      }
    } else {
      NoneThere(s, b, |s|);
      assert s[..|s|] == s;
    }
  }

  lemma SplitStep(s: bytes, b: byte)
    ensures var i := Index(s, [b]);
            Split(s, [b]) == if i < 0 then [s] else [s[..i]] + Split(s[i + 1..], [b])
  {
    hide Index;
  }

  lemma NoneThere(s: bytes, b: byte, i: nat)
    requires i <= |s| && forall k :: 0 <= k < i ==> !MatchAt(s, [b], k)
    ensures b !in s[..i]
  {
    forall k | 0 <= k < i
      ensures s[k] != b
    {
      assert !MatchAt(s, [b], k) && s[k..k + 1] == [s[k]];
    }
  }

  lemma {:induction false} CountAppend(s: bytes, t: bytes, b: byte)
    ensures Count(s + t, b) == Count(s, b) + Count(t, b)
  {
    if s == [] {
      assert s + t == t;
    } else {
      assert (s + t)[0] == s[0] && (s + t)[1..] == s[1..] + t;
      CountAppend(s[1..], t, b);
    }
  }

  lemma {:induction false} CountNone(s: bytes, b: byte)
    requires b !in s
    ensures Count(s, b) == 0
  {
    if s != [] {
      assert s[0] in s;
      CountNone(s[1..], b);
    }
  }

  lemma {:induction false} JoinedCount(parts: seq<bytes>, b: byte)
    requires parts != [] && forall p <- parts :: b !in p
    ensures Count(Joined(parts, b), b) == |parts| - 1
  {
    assert parts[0] in parts;
    CountNone(parts[0], b);
    if |parts| > 1 {
      assert forall p <- parts[1..] :: p in parts;
      JoinedCount(parts[1..], b);
      CountAppend(parts[0] + [b], Joined(parts[1..], b), b);
      CountAppend(parts[0], [b], b);
    }
  }

  /** A request line is one with two single spaces in it, blanks around it aside; its parts are
      what stands before, between and after the spaces. */
  lemma RequestLineExact(l: bytes, t: bytes)
    requires Trimmed(l + CRLF, t)
    ensures |RequestLineParts(l)| == Count(t, SPACE) + 1
    ensures Joined(RequestLineParts(l), SPACE) == t && forall p <- RequestLineParts(l) :: SPACE !in p
  {
    hide Split, TrimSpace, Trimmed;
    TrimSpaceExact(l + CRLF, t);
    SplitExact(t, SPACE);
    JoinedCount(RequestLineParts(l), SPACE);
  }

  // ---- chunked among other codings ----

  /** A head whose last Transfer-Encoding value names chunked, whatever stands before and after
      it, with a usable length or none: its body is read in chunks. */
  lemma CodedChunked(lines: seq<bytes>, x: bytes, y: bytes, cs: seq<Chunk>, z: Last, rest: bytes)
    requires lines != [] && ValidHead(lines, MAX_HEADER) && StatedLength(lines).Some?
    requires LastField(lines[1..], TRANSFER_ENCODING) == x + CHUNKED + y
    requires (forall c <- cs :: ValidChunk(c)) && ValidLast(z) && |ChunksData(cs)| <= MAX_BODY
    ensures ReadRequest(Block(lines) + (ChunksBytes(cs) + LastBytes(z)) + rest, MAX_HEADER, MAX_BODY) ==
            Ok((Request(lines, true, StatedLength(lines).value, ChunksData(cs)), rest))
  {
    hide LastField, ValidHead, ReadRequest, ChunksBytes, LastBytes, ValidChunk, ValidLast, IsChunked, Block;
    assert Within(CHUNKED, x + CHUNKED + y);
    ChunkedNamed(lines[1..]);
    ReaderInverse(WithChunks(lines, cs, z), rest);
  }
}
