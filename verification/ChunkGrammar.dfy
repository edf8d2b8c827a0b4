/** The chunked bodies the reader accepts, exactly: its grammar of size lines is wider than the
    one clients use (signs, blanks around the size), and narrower in one place. */
module ChunkGrammar {
  import opened Bytes
  import opened Numbers
  import opened HttpRequest

  // ---- trimming, undone ----

  predicate Spaces(s: bytes) {
    forall b <- s :: IsSpace(b)
  }

  lemma {:induction false} TrimLeftIs(s: bytes) returns (k: nat)
    ensures k <= |s| && Spaces(s[..k]) && TrimLeft(s) == s[k..]
  {
    if s != [] && IsSpace(s[0]) {
      var j := TrimLeftIs(s[1..]);
      k := j + 1;
      assert s[..k] == [s[0]] + s[1..][..j] && s[k..] == s[1..][j..];
    } else {
      k := 0;
    }
  }

  lemma {:induction false} TrimRightIs(s: bytes) returns (k: nat)
    ensures k <= |s| && Spaces(s[k..]) && TrimRight(s) == s[..k]
  {
    if s != [] && IsSpace(s[|s| - 1]) {
      var init := s[..|s| - 1];
      k := TrimRightIs(init);
      assert s[..k] == init[..k];
      assert s[k..] == init[k..] + [s[|s| - 1]];
    } else {
      k := |s|;
    }
  }

  lemma {:induction false} LeadTrimmed(lead: bytes, s: bytes)
    requires Spaces(lead) && (s == [] || !IsSpace(s[0]))
    ensures TrimLeft(lead + s) == s
  {
    if lead == [] {
      assert lead + s == s;
    } else {
      assert lead[0] in lead && forall b <- lead[1..] :: b in lead;
      LeadTrimmed(lead[1..], s);
      assert (lead + s)[1..] == lead[1..] + s;
    }
  }

  // ---- size lines ----

  /** Blanks, a sign, hex digits, and then blanks or an extension at once. */
  predicate SizeParts(l: bytes, lead: bytes, sign: bytes, digits: bytes, tail: bytes, n: nat) {
    && l == lead + sign + digits + tail && Blank(lead)
    && (sign == [] || sign == [43] || (sign == [45] && n == 0))
    && digits != [] && DigitsValue(digits, 16) == Some(n) && n < TWO63
    && (Blank(tail) || (tail != [] && tail[0] == SEMICOLON))
  }

  ghost predicate SizeLine(l: bytes, n: nat) {
    exists lead, sign, digits, tail :: SizeParts(l, lead, sign, digits, tail, n)
  }

  /** A signed number, taken apart. */
  lemma NumberIs(u: bytes, n: nat) returns (sign: bytes, digits: bytes)
    requires ParseInt(u, 16) == Some(n)
    ensures u == sign + digits && digits != [] && DigitsValue(digits, 16) == Some(n) && n < TWO63
    ensures sign == [] || sign == [43] || (sign == [45] && n == 0)
  {
    hide DigitsValue;
    if u[0] == 45 || u[0] == 43 {
      sign, digits := [u[0]], u[1..];
    } else {
      sign, digits := [], u;
    }
  }

  lemma NumberParses(sign: bytes, digits: bytes, n: nat)
    requires digits != [] && DigitsValue(digits, 16) == Some(n) && n < TWO63
    requires sign == [] || sign == [43] || (sign == [45] && n == 0)
    ensures ParseInt(sign + digits, 16) == Some(n)
  {
    HexFirst(digits, n);
    hide DigitsValue;
    if sign == [] {
      assert sign + digits == digits;
    } else {
      assert (sign + digits)[1..] == digits && (sign + digits)[0] == sign[0];
    }
  }

  /** The text of a size line in this form. */
  lemma SizePartsText(l: bytes, lead: bytes, sign: bytes, digits: bytes, tail: bytes, n: nat)
    requires SizeParts(l, lead, sign, digits, tail, n)
    ensures SizeText(l) == sign + digits
  {
    SizeNoLf(digits, n);
    hide DigitsValue, IndexByte, TrimLeft, TrimRight;
    var u := sign + digits;
    assert digits[0] in digits && digits[|digits| - 1] in digits;
    assert u[|u| - 1] == digits[|digits| - 1] && u[0] == if sign == [] then digits[0] else sign[0];
    assert SEMICOLON !in u;
    assert l + CRLF == lead + (u + (tail + CRLF));
    hide SizeText;
    NumberText(l, lead, u, tail);
  }

  /** Blanks in front and what follows a number in a line are no part of its text. */
  lemma NumberText(l: bytes, lead: bytes, u: bytes, tail: bytes)
    requires u != [] && !IsSpace(u[0]) && !IsSpace(u[|u| - 1]) && SEMICOLON !in u
    requires l + CRLF == lead + (u + (tail + CRLF)) && Blank(lead)
    requires Blank(tail) || (tail != [] && tail[0] == SEMICOLON)
    ensures SizeText(l) == u
  {
    hide IndexByte, TrimLeft, TrimRight;
    var rest := u + (tail + CRLF);
    assert rest[0] == u[0];
    LeadTrimmed(lead, rest);
    NumberEnd(u, tail);
  }

  lemma NumberEnd(u: bytes, tail: bytes)
    requires u != [] && !IsSpace(u[|u| - 1]) && SEMICOLON !in u
    requires Blank(tail) || (tail != [] && tail[0] == SEMICOLON)
    ensures BeforeExtension(TrimRight(u + (tail + CRLF))) == u
  {
    if Blank(tail) {
      hide IndexByte, TrimRight;
      TrimRightSuffix(u, tail + CRLF);
      NoSemicolon(u);
    } else {
      hide Blank;
      assert tail + CRLF == [SEMICOLON] + (tail[1..] + CRLF);
      ExtensionEnd(u, tail[1..] + CRLF);
    }
  }

  lemma ExtensionEnd(u: bytes, more: bytes)
    requires SEMICOLON !in u
    ensures BeforeExtension(TrimRight(u + ([SEMICOLON] + more))) == u
  {
    hide IndexByte, TrimRight;
    Assoc(u, [SEMICOLON], more);
    TrimRightKeeps(u + [SEMICOLON], more);
    CutAt(TrimRight(u + [SEMICOLON] + more), u);
  }

  /** Where the text of a line lies in it. */
  lemma TextIn(l: bytes) returns (lead: bytes, rest: bytes)
    ensures l + CRLF == lead + SizeText(l) + rest && Spaces(lead)
    ensures Spaces(rest) || (rest != [] && rest[0] == SEMICOLON)
  {
    hide IndexByte, TrimLeft, TrimRight, IsSpace;
    var s := l + CRLF;
    var k := TrimLeftIs(s);
    var t0 := s[k..];
    var text;
    text, rest := EndIn(t0);
    lead := s[..k];
    Assoc(lead, text, rest);
    assert s == lead + t0;
  }

  lemma EndIn(s: bytes) returns (text: bytes, rest: bytes)
    ensures s == text + rest
    ensures text == BeforeExtension(TrimRight(s))
    ensures Spaces(rest) || (rest != [] && rest[0] == SEMICOLON)
  {
    hide IndexByte, TrimRight, IsSpace;
    var j := TrimRightIs(s);
    var i := IndexByte(s[..j], SEMICOLON);
    var k := if i >= 0 then i else j;
    text, rest := s[..k], s[k..];
    if i >= 0 {
      hide Spaces;
      assert s[..j][..i] == text && s[i] == s[..j][i];
    }
  }

  /** The size lines accepted, exactly. */
  lemma SizeLineGrammar(l: bytes, n: nat)
    requires LF !in l
    ensures ParseInt(SizeText(l), 16) == Some(n) <==> SizeLine(l, n)
  {
    hide SizeText, ParseInt, DigitsValue;
    if SizeLine(l, n) {
      var lead, sign, digits, tail :| SizeParts(l, lead, sign, digits, tail, n);
      SizePartsText(l, lead, sign, digits, tail, n);
      NumberParses(sign, digits, n);
    }
    if ParseInt(SizeText(l), 16) == Some(n) {
      var sign, digits := NumberIs(SizeText(l), n);
      var lead, rest := TextIn(l);
      SizeNoLf(digits, n);
      LineEnd(l, lead + SizeText(l), rest, digits[|digits| - 1]);
      var tail := l[|lead + SizeText(l)|..];
      assert l == lead + SizeText(l) + tail && rest == tail + CRLF;
      PartsHold(l, lead, sign, digits, tail, rest, n);
    }
  }

  lemma LineEnd(l: bytes, front: bytes, rest: bytes, last: byte)
    requires l + CRLF == front + rest && front != [] && front[|front| - 1] == last && !IsSpace(last)
    ensures |front| <= |l| && front == l[..|front|] && rest == l[|front|..] + CRLF
  {
    var s := l + CRLF;
    assert s[|l|] == CR && s[|l| + 1] == LF;
    assert s[|front| - 1] == last;
    assert front == s[..|front|] && rest == s[|front|..];
  }

  lemma PartsHold(l: bytes, lead: bytes, sign: bytes, digits: bytes, tail: bytes, rest: bytes, n: nat)
    requires LF !in l && l == lead + (sign + digits) + tail && rest == tail + CRLF && Spaces(lead)
    requires Spaces(rest) || (rest != [] && rest[0] == SEMICOLON)
    requires digits != [] && DigitsValue(digits, 16) == Some(n) && n < TWO63
    requires sign == [] || sign == [43] || (sign == [45] && n == 0)
    ensures SizeLine(l, n)
  {
    hide DigitsValue;
    assert forall b <- lead :: b in l;
    assert forall b <- tail :: b in l && b in rest;
    assert l == lead + sign + digits + tail;
    assert rest[0] == if tail == [] then CR else tail[0];
    assert SizeParts(l, lead, sign, digits, tail, n);
  }

  // ---- chunks, the terminator, bodies ----

  datatype WireChunk = WireChunk(line: bytes, data: bytes)

  datatype WireEnd = WireEnd(line: bytes, trailers: seq<bytes>)

  ghost predicate GoodChunk(c: WireChunk) {
    c.data != [] && LF !in c.line && |c.line| + 2 <= 64 && SizeLine(c.line, |c.data|)
  }

  ghost predicate GoodEnd(z: WireEnd) {
    && LF !in z.line && |z.line| + 2 <= 64 && SizeLine(z.line, 0)
    && ValidFields(z.trailers) && forall t <- z.trailers :: |t| + 2 <= 1024
  }

  function ChunkWire(c: WireChunk): bytes {
    c.line + CRLF + (c.data + CRLF)
  }

  function EndWire(z: WireEnd): bytes {
    z.line + CRLF + Block(z.trailers)
  }

  function ChunksWire(cs: seq<WireChunk>): bytes {
    if cs == [] then [] else ChunkWire(cs[0]) + ChunksWire(cs[1..])
  }

  function WireData(cs: seq<WireChunk>): bytes {
    if cs == [] then [] else cs[0].data + WireData(cs[1..])
  }

  ghost predicate GoodChunks(cs: seq<WireChunk>) {
    forall c <- cs :: GoodChunk(c)
  }

  /** Trailers taken apart. */
  lemma {:induction false} TrailersIs(s: bytes) returns (ts: seq<bytes>)
    requires SkipTrailers(s).Ok?
    ensures ValidFields(ts) && (forall t <- ts :: ShortTrailer(t))
    ensures s == Lines(ts) + (CRLF + SkipTrailers(s).value)
    decreases |s|
  {
    var (l, rest) := ReadLine(s, MAX_TRAILER_LINE).value;
    ReadLineExact(s, MAX_TRAILER_LINE, l, rest);
    hide ReadLine;
    if l == [] {
      ts := [];
      assert Lines([]) + (CRLF + rest) == [] + CRLF + rest;
    } else {
      var more := TrailersIs(rest);
      ts := [l] + more;
      ValidFieldsSplit(l, more);
      LinesSplitFirst(l, more, CRLF + SkipTrailers(rest).value);
    }
  }

  /** One accepted chunk taken apart. */
  lemma ChunkIs(s: bytes, have: nat, maxBody: nat) returns (c: WireChunk)
    requires ReadChunk(s, have, maxBody).Ok? && ReadChunk(s, have, maxBody).value.0.Some?
    requires have <= maxBody <= MAX_ALLOC
    ensures var (data, rest) := ReadChunk(s, have, maxBody).value;
            GoodChunk(c) && c.data == data.value && have + |c.data| <= maxBody && s == ChunkWire(c) + rest
  {
    hide SizeText, ParseInt, SkipTrailers, SizeLine;
    var (l, s1) := ReadLine(s, MAX_CHUNK_LINE).value;
    ReadLineExact(s, MAX_CHUNK_LINE, l, s1);
    hide ReadLine;
    var n := ParseInt(SizeText(l), 16).value;
    SizeLineGrammar(l, n);
    var (data, rest) := ReadChunk(s, have, maxBody).value;
    DataIs(s1, n);
    c := WireChunk(l, data.value);
    assert l + CRLF + (data.value + (CRLF + rest)) == ChunkWire(c) + rest;
  }

  lemma DataIs(s: bytes, n: nat)
    requires ReadChunkData(s, n).Ok?
    ensures var (data, rest) := ReadChunkData(s, n).value;
            data.Some? && |data.value| == n && s == data.value + (CRLF + rest)
  {
    if n > 0 {
      var t := s[n..];
      assert s == s[..n] + t && t == t[..2] + t[2..];
    } else {
      assert s == s[..2] + s[2..] && [] + s == s;
    }
  }

  /** An accepted terminator taken apart. */
  lemma EndIs(s: bytes, have: nat, maxBody: nat) returns (z: WireEnd)
    requires ReadChunk(s, have, maxBody).Ok? && ReadChunk(s, have, maxBody).value.0.None?
    ensures GoodEnd(z) && s == EndWire(z) + ReadChunk(s, have, maxBody).value.1
  {
    hide SizeText, ParseInt, SkipTrailers, SizeLine, ReadChunkData;
    var (l, s1) := ReadLine(s, MAX_CHUNK_LINE).value;
    ReadLineExact(s, MAX_CHUNK_LINE, l, s1);
    hide ReadLine;
    SizeLineGrammar(l, 0);
    assert ParseInt(SizeText(l), 16) == Some(0) by {
      NoneMeansZero(s, have, maxBody, l, s1);
    }
    var ts := TrailersIs(s1);
    var rest := SkipTrailers(s1).value;
    z := WireEnd(l, ts);
    Assoc(Lines(ts), CRLF, rest);
    Assoc(l + CRLF, Block(ts), rest);
  }

  lemma NoneMeansZero(s: bytes, have: nat, maxBody: nat, l: bytes, s1: bytes)
    requires ReadLine(s, MAX_CHUNK_LINE) == Ok((l, s1))
    requires ReadChunk(s, have, maxBody).Ok? && ReadChunk(s, have, maxBody).value.0.None?
    ensures ParseInt(SizeText(l), 16) == Some(0) && SkipTrailers(s1) == Ok(ReadChunk(s, have, maxBody).value.1)
  {
    hide SizeText, ParseInt, SkipTrailers, ReadLine;
  }

  lemma ChunkReads(c: WireChunk, rest: bytes, have: nat, maxBody: nat)
    requires GoodChunk(c) && have + |c.data| <= maxBody <= MAX_ALLOC
    ensures ReadChunk(ChunkWire(c) + rest, have, maxBody) == Ok((Some(c.data), rest))
  {
    hide SizeText, ParseInt, ReadChunkData, SizeLine;
    var s1 := c.data + (CRLF + rest);
    assert ChunkWire(c) + rest == c.line + CRLF + s1;
    ReadLineExact(ChunkWire(c) + rest, MAX_CHUNK_LINE, c.line, s1);
    hide ReadLine;
    SizeLineGrammar(c.line, |c.data|);
    ChunkDataRead(c.data, rest);
  }

  lemma EndReads(z: WireEnd, rest: bytes, have: nat, maxBody: nat)
    requires GoodEnd(z)
    ensures ReadChunk(EndWire(z) + rest, have, maxBody) == Ok((None, rest))
  {
    hide SizeText, ParseInt, SizeLine;
    var s1 := Lines(z.trailers) + (CRLF + rest);
    Assoc(Lines(z.trailers), CRLF, rest);
    Assoc(z.line + CRLF, Block(z.trailers), rest);
    assert EndWire(z) + rest == z.line + CRLF + s1;
    ReadLineExact(EndWire(z) + rest, MAX_CHUNK_LINE, z.line, s1);
    hide ReadLine;
    SizeLineGrammar(z.line, 0);
    TrailersSkipped(z.trailers, rest);
    hide SkipTrailers;
  }

  lemma {:induction false} BodyReads(cs: seq<WireChunk>, z: WireEnd, rest: bytes, have: nat, maxBody: nat)
    requires GoodChunks(cs) && GoodEnd(z) && have + |WireData(cs)| <= maxBody <= MAX_ALLOC
    ensures ReadChunks(ChunksWire(cs) + (EndWire(z) + rest), have, maxBody) == Ok((WireData(cs), rest))
    decreases |cs|
  {
    hide ReadChunk, GoodChunk, GoodEnd, ChunkWire, EndWire;
    var tail := EndWire(z) + rest;
    if cs == [] {
      assert ChunksWire(cs) + tail == tail;
      EndReads(z, rest, have, maxBody);
    } else {
      assert cs[0] in cs && forall c <- cs[1..] :: c in cs;
      Assoc(ChunkWire(cs[0]), ChunksWire(cs[1..]), tail);
      ChunkReads(cs[0], ChunksWire(cs[1..]) + tail, have, maxBody);
      BodyReads(cs[1..], z, rest, have + |cs[0].data|, maxBody);
    }
  }

  lemma {:induction false} BodyIs(s: bytes, have: nat, maxBody: nat) returns (cs: seq<WireChunk>, z: WireEnd)
    requires ReadChunks(s, have, maxBody).Ok? && have <= maxBody <= MAX_ALLOC
    ensures var (body, rest) := ReadChunks(s, have, maxBody).value;
            && GoodChunks(cs) && GoodEnd(z) && body == WireData(cs) && have + |body| <= maxBody
            && s == ChunksWire(cs) + (EndWire(z) + rest)
    decreases |s|
  {
    hide ReadChunk, GoodChunk, GoodEnd, ChunkWire, EndWire;
    var (chunk, rest1) := ReadChunk(s, have, maxBody).value;
    if chunk.None? {
      cs := [];
      z := EndIs(s, have, maxBody);
      assert [] + (EndWire(z) + rest1) == EndWire(z) + rest1;
    } else {
      var c := ChunkIs(s, have, maxBody);
      var more;
      more, z := BodyIs(rest1, have + |c.data|, maxBody);
      cs := [c] + more;
      assert cs[0] == c && cs[1..] == more;
      Assoc(ChunkWire(c), ChunksWire(more), EndWire(z) + ReadChunks(rest1, have + |c.data|, maxBody).value.1);
    }
  }

  ghost predicate ChunkedForm(s: bytes, cs: seq<WireChunk>, z: WireEnd, body: bytes, rest: bytes) {
    GoodChunks(cs) && GoodEnd(z) && body == WireData(cs) && s == ChunksWire(cs) + (EndWire(z) + rest)
  }

  /** The chunked bodies accepted, exactly: a body is read from the front of a stream if and only
      if the stream starts with chunks of this grammar that carry it, a zero chunk and trailers,
      and the body is within the limit; and what follows is left. */
  lemma ChunksExact(s: bytes, have: nat, maxBody: nat, body: bytes, rest: bytes)
    requires have <= maxBody <= MAX_ALLOC
    ensures ReadChunks(s, have, maxBody) == Ok((body, rest)) <==>
            have + |body| <= maxBody && exists cs, z :: ChunkedForm(s, cs, z, body, rest)
  {
    hide ReadChunks, GoodChunks, GoodEnd, ChunksWire, EndWire, WireData;
    if ReadChunks(s, have, maxBody) == Ok((body, rest)) {
      var cs, z := BodyIs(s, have, maxBody);
      assert ChunkedForm(s, cs, z, body, rest);
    }
    if have + |body| <= maxBody && exists cs, z :: ChunkedForm(s, cs, z, body, rest) {
      var cs, z :| ChunkedForm(s, cs, z, body, rest);
      BodyReads(cs, z, rest, have, maxBody);
    }
  }

  // ---- whole requests ----

  /** The bytes between a head and the rest, in the framing its last framing fields ask for. */
  ghost predicate BodyForm(r: Request, s: bytes, rest: bytes) {
    if r.chunked then exists cs, z :: ChunkedForm(s, cs, z, r.body, rest)
    else r.contentLength == |r.body| && s == r.body + rest
  }

  /** The requests accepted, exactly: a valid head, a usable length or none, chunked if and only
      if the head says so, and a body in that framing within the limit. */
  lemma RequestExact(s: bytes, maxHeader: nat, maxBody: nat, r: Request, rest: bytes)
    requires maxBody <= MAX_ALLOC
    ensures ReadRequest(s, maxHeader, maxBody) == Ok((r, rest)) <==>
            && ValidHead(r.lines, maxHeader) && Block(r.lines) <= s
            && StatedLength(r.lines) == Some(r.contentLength)
            && (r.chunked <==> Within(CHUNKED, LastField(r.lines[1..], TRANSFER_ENCODING)))
            && |r.body| <= maxBody && BodyForm(r, s[|Block(r.lines)|..], rest)
  {
    hide ReadHead, ReadBody, ValidHead, Block, StatedLength, LastField, Within, BodyForm;
    if ReadRequest(s, maxHeader, maxBody) == Ok((r, rest)) {
      var (lines, tail) := ReadHead(s, maxHeader).value;
      HeadExact(s, maxHeader, lines, tail);
      BodyExact(lines, tail, maxBody, r, rest);
      assert s[|Block(lines)|..] == tail;
    }
    if ValidHead(r.lines, maxHeader) && Block(r.lines) <= s {
      var tail := s[|Block(r.lines)|..];
      assert s == Block(r.lines) + tail;
      HeadExact(s, maxHeader, r.lines, tail);
      BodyExact(r.lines, tail, maxBody, r, rest);
    }
  }

  lemma BodyExact(lines: seq<bytes>, s: bytes, maxBody: nat, r: Request, rest: bytes)
    requires lines != [] && maxBody <= MAX_ALLOC
    ensures ReadBody(lines, s, maxBody) == Ok((r, rest)) <==>
            && r.lines == lines && StatedLength(lines) == Some(r.contentLength)
            && (r.chunked <==> Within(CHUNKED, LastField(lines[1..], TRANSFER_ENCODING)))
            && |r.body| <= maxBody && BodyForm(r, s, rest)
  {
    ChunkedNamed(lines[1..]);
    hide ReadChunks, ReadFull, LastField, IsChunked, ParseInt, ChunkedForm, Within;
    ChunksExact(s, 0, maxBody, r.body, rest);
    FullExact(s, r.body, rest);
  }

  lemma FullExact(s: bytes, data: bytes, rest: bytes)
    ensures ReadFull(s, |data|) == Ok((data, rest)) <==> s == data + rest
  {
    if s == data + rest {
      assert s[..|data|] == data && s[|data|..] == rest;
    }
    if |data| <= |s| {
      assert s == s[..|data|] + s[|data|..];
    }
  }
}
