/** Why a request is refused: each refusal, from the bytes that cause it. */
module ReadErrors {
  import opened Bytes
  import opened Numbers
  import opened HttpRequest
  import G = ChunkGrammar

  /** Without a line feed there is no line. */
  lemma NoLineEnd(s: bytes, max: int)
    ensures ReadLine(s, max) == Err(Eof) <==> LF !in s
  {
    var k := IndexByte(s, LF);
    hide IndexByte;
    if k >= 0 {
      assert s[k] in s;
    }
  }

  /** With its first one at i, a line is refused for being over the limit, and else for having no
      carriage return right before it. */
  lemma LineErrors(s: bytes, max: int, i: nat)
    requires i < |s| && s[i] == LF && LF !in s[..i]
    ensures ReadLine(s, max) == Err(TooLarge) <==> i >= max
    ensures ReadLine(s, max) == Err(BadRequest) <==> i < max && (i == 0 || s[i - 1] != CR)
    ensures ReadLine(s, max).Ok? <==> i < max && i > 0 && s[i - 1] == CR
  {
    IndexByteIs(s, LF, i);
    hide IndexByte;
  }

  /** After the head: a malformed length is refused before anything else; then the framing
      decides; and a length over the limit is refused before its body is read. */
  lemma BodyErrors(lines: seq<bytes>, s: bytes, maxBody: nat)
    requires lines != []
    ensures StatedLength(lines) == None ==> ReadBody(lines, s, maxBody) == Err(BadRequest)
    ensures var v := LastField(lines[1..], TRANSFER_ENCODING);
            StatedLength(lines).Some? && !Within(CHUNKED, v) ==>
              var n := StatedLength(lines).value;
              && (n < 0 ==> ReadBody(lines, s, maxBody) == Err(Unsupported))
              && (n > maxBody ==> ReadBody(lines, s, maxBody) == Err(TooLarge))
              && (0 <= n <= maxBody && |s| < n ==>
                    ReadBody(lines, s, maxBody) == Err(if s == [] then Eof else UnexpectedEof))
  {
    ChunkedNamed(lines[1..]);
    hide LastField, IsChunked, ParseInt, ReadChunks;
  }

  /** A chunk line that is no size line is refused, and so is a size over what is left of the
      limit; a size whose sum with the bytes collected leaves 64 bits passes that test and ends
      in an allocation the runtime cannot make. Chunk data must be followed by CRLF. */
  lemma ChunkErrors(l: bytes, s: bytes, have: nat, maxBody: nat, n: nat)
    requires LF !in l && |l| + 2 <= 64 && have <= maxBody <= MAX_ALLOC
    ensures var r := ReadChunk(l + CRLF + s, have, maxBody);
            && ((forall k: nat :: !G.SizeLine(l, k)) ==> r == Err(BadRequest))
            && (G.SizeLine(l, n) && n > 0 ==>
                  && (have + n >= 0x8000_0000_0000_0000 ==> r == Err(Panicked))
                  && (maxBody < have + n < 0x8000_0000_0000_0000 ==> r == Err(TooLarge))
                  && (have + n <= maxBody && |s| < n ==> r == Err(if s == [] then Eof else UnexpectedEof))
                  && (have + n <= maxBody && |s| >= n + 2 && s[n..n + 2] != CRLF ==> r == Err(BadRequest)))
  {
    hide ParseInt, SizeText, SkipTrailers, G.SizeLine;
    ReadLineExact(l + CRLF + s, 64, l, s);
    hide ReadLine;
    var v := ParseInt(SizeText(l), 16);
    if v.Some? && v.value >= 0 {
      G.SizeLineGrammar(l, v.value);
    }
    G.SizeLineGrammar(l, n);
    if G.SizeLine(l, n) {
      SizeBelow(l, n);
    }
  }

  lemma SizeBelow(l: bytes, n: nat)
    requires G.SizeLine(l, n)
    ensures n < 0x8000_0000_0000_0000
  {
    hide DigitsValue;
  }
}
