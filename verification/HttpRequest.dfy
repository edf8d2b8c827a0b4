/** Reading one HTTP request from a byte stream (framing as in sections 6.3 and 7.1 of
    RFC 9112), as a function of the unread bytes. Lines are held without their CRLF. */
module HttpRequest {
  import opened Bytes
  import opened Numbers
  import opened Streams

  datatype HttpError = Eof | UnexpectedEof | BadRequest | Unsupported | TooLarge | Panicked

  const MAX_HEADER: nat := 64 * 1024
  const MAX_BODY: nat := 16 * 1024 * 1024
  const MAX_CHUNK_LINE: nat := 64
  const MAX_TRAILER_LINE: nat := 1024
  // The largest buffer the runtime allocates; a request for more panics.
  const MAX_ALLOC: nat := 0x1_0000_0000_0000

  // "transfer-encoding:" and "chunked"
  const TRANSFER_ENCODING: bytes :=
    [116, 114, 97, 110, 115, 102, 101, 114, 45, 101, 110, 99, 111, 100, 105, 110, 103, 58]
  const CHUNKED: bytes := [99, 104, 117, 110, 107, 101, 100]

  // ---- lines ----

  /** `readLineCRLF`: the line without its CRLF, and the rest. */
  function ReadLine(s: bytes, max: int): (r: Result<(bytes, bytes), HttpError>)
    ensures r.Ok? ==> |r.value.1| < |s|
  {
    var k := IndexByte(s, LF);
    if k < 0 then Err(Eof)
    else if k + 1 > max then Err(TooLarge)
    else if k < 1 || s[k - 1] != CR then Err(BadRequest)
    else Ok((s[..k - 1], s[k + 1..]))
  }

  /** A line is accepted exactly when it is LF-free text and CRLF within the limit. */
  lemma ReadLineExact(s: bytes, max: int, l: bytes, rest: bytes)
    ensures ReadLine(s, max) == Ok((l, rest)) <==> LF !in l && |l| + 2 <= max && s == l + CRLF + rest
  {
    var k := IndexByte(s, LF);
    if LF !in l && |l| + 2 <= max && s == l + CRLF + rest {
      assert LF !in s[..|l| + 1] by {
        assert forall j :: 0 <= j < |l| ==> s[j] == l[j];
        assert s[|l|] == CR;
      }
      IndexByteIs(s, LF, |l| + 1);
      assert s[..|l|] == l && s[|l| + 2..] == rest;
    }
    if ReadLine(s, max) == Ok((l, rest)) {
      assert s == s[..k - 1] + [s[k - 1]] + [s[k]] + s[k + 1..];
      assert LF !in l by {
        assert forall j :: 0 <= j < |l| ==> l[j] == s[..k][j];
      }
    }
  }

  // ---- the head ----

  /** Header lines up to the blank line, within what is left of the header limit. */
  function ReadFields(s: bytes, budget: int): (r: Result<(seq<bytes>, bytes), HttpError>)
    ensures r.Ok? ==> |r.value.1| < |s|
    decreases |s|
  {
    match ReadLine(s, budget)
    case Err(e) => Err(e)
    case Ok((l, rest)) =>
      if l == [] then Ok(([], rest))
      else
        match ReadFields(rest, budget - (|l| + 2))
        case Err(e) => Err(e)
        case Ok((more, rest2)) => Ok(([l] + more, rest2))
  }

  /** METHOD SP PATH SP PROTO: at least three parts. */
  function RequestLineParts(l: bytes): seq<bytes> {
    Split(TrimSpace(l + CRLF), [SPACE])
  }

  function ReadHead(s: bytes, maxHeader: nat): (r: Result<(seq<bytes>, bytes), HttpError>)
    ensures r.Ok? ==> |r.value.0| > 0 && |r.value.1| < |s|
  {
    match ReadLine(s, maxHeader)
    case Err(e) => Err(e)
    case Ok((l, rest)) =>
      if |RequestLineParts(l)| < 3 then Err(BadRequest)
      else
        match ReadFields(rest, maxHeader - (|l| + 2))
        case Err(e) => Err(e)
        case Ok((more, rest2)) => Ok(([l] + more, rest2))
  }

  /** The bytes of a header block. */
  function Block(lines: seq<bytes>): bytes {
    Lines(lines) + CRLF
  }

  /** A nonempty line without a line feed. */
  predicate FieldLine(l: bytes) {
    l != [] && LF !in l
  }

  predicate ValidFields(lines: seq<bytes>) {
    forall l <- lines :: FieldLine(l)
  }

  lemma ValidFieldsSplit(l: bytes, more: seq<bytes>)
    ensures ValidFields([l] + more) <==> FieldLine(l) && ValidFields(more)
  {
    var ls := [l] + more;
    assert ls[0] == l && ls[1..] == more;
    if ValidFields(ls) {
      assert forall m <- more :: m in ls;
      assert l in ls;
    }
  }

  predicate ValidHead(lines: seq<bytes>, maxHeader: nat) {
    && lines != [] && LF !in lines[0] && |RequestLineParts(lines[0])| >= 3
    && ValidFields(lines[1..])
    && |Block(lines)| <= maxHeader
  }

  lemma LinesSplitFirst(l: bytes, more: seq<bytes>, tail: bytes)
    ensures Lines([l] + more) + tail == l + CRLF + (Lines(more) + tail)
    ensures |Block([l] + more)| == |l| + 2 + |Block(more)|
  {
    assert ([l] + more)[1..] == more;
    Assoc(l + CRLF, Lines(more), tail);
  }

  /** One nonblank line in front of the rest of the head. */
  lemma FieldsStep(budget: int, l: bytes, s1: bytes)
    requires FieldLine(l) && |l| + 2 <= budget
    ensures ReadFields(l + CRLF + s1, budget) ==
            match ReadFields(s1, budget - (|l| + 2))
            case Err(e) => Err(e)
            case Ok((more, rest)) => Ok(([l] + more, rest))
  {
    ReadLineExact(l + CRLF + s1, budget, l, s1);
    hide ReadLine;
  }

  lemma NoFields(budget: int, rest: bytes)
    requires |Block([])| <= budget
    ensures ReadFields(Lines([]) + (CRLF + rest), budget) == Ok(([], rest))
  {
    hide ReadLine;
    var s := Lines([]) + (CRLF + rest);
    assert s == [] + CRLF + rest;
    ReadLineExact(s, budget, [], rest);
  }

  lemma {:induction false} FieldsComplete(budget: int, lines: seq<bytes>, rest: bytes)
    requires ValidFields(lines) && |Block(lines)| <= budget
    ensures ReadFields(Lines(lines) + (CRLF + rest), budget) == Ok((lines, rest))
    decreases |lines|
  {
    hide ReadFields, ReadLine, Lines, Block, FieldLine;
    if lines == [] {
      NoFields(budget, rest);
    } else {
      var l, more := lines[0], lines[1..];
      assert lines == [l] + more;
      ValidFieldsSplit(l, more);
      hide ValidFields;
      LinesSplitFirst(l, more, CRLF + rest);
      FieldsStep(budget, l, Lines(more) + (CRLF + rest));
      FieldsComplete(budget - (|l| + 2), more, rest);
    }
  }

  lemma {:induction false} FieldsSound(s: bytes, budget: int, lines: seq<bytes>, rest: bytes)
    requires ReadFields(s, budget) == Ok((lines, rest))
    ensures ValidFields(lines) && |Block(lines)| <= budget && s == Lines(lines) + (CRLF + rest)
    decreases |lines|
  {
    var (l, rest1) := ReadLine(s, budget).value;
    ReadLineExact(s, budget, l, rest1);
    if l == [] {
      assert s == Lines([]) + (CRLF + rest);
    } else {
      hide ReadLine, Lines, Block;
      var more := lines[1..];
      assert lines == [l] + more;
      FieldsSound(rest1, budget - (|l| + 2), more, rest);
      ValidFieldsSplit(l, more);
      LinesSplitFirst(l, more, CRLF + rest);
    }
  }

  /** The head reader accepts exactly the valid header blocks, returns their lines, and stops
      right after the blank line. */
  lemma HeadExact(s: bytes, maxHeader: nat, lines: seq<bytes>, rest: bytes)
    ensures ReadHead(s, maxHeader) == Ok((lines, rest)) <==> ValidHead(lines, maxHeader) && s == Block(lines) + rest
  {
    hide ReadLine, ReadFields, Lines, RequestLineParts, ValidFields;
    if ValidHead(lines, maxHeader) && s == Block(lines) + rest {
      var l, more := lines[0], lines[1..];
      assert lines == [l] + more;
      LinesSplitFirst(l, more, CRLF + rest);
      Assoc(Lines(lines), CRLF, rest);
      ReadLineExact(s, maxHeader, l, Lines(more) + (CRLF + rest));
      FieldsComplete(maxHeader - (|l| + 2), more, rest);
    }
    if ReadHead(s, maxHeader) == Ok((lines, rest)) {
      var (l, rest1) := ReadLine(s, maxHeader).value;
      ReadLineExact(s, maxHeader, l, rest1);
      assert lines == [l] + lines[1..];
      FieldsSound(rest1, maxHeader - (|l| + 2), lines[1..], rest);
      LinesSplitFirst(l, lines[1..], CRLF + rest);
      Assoc(Lines(lines), CRLF, rest);
    }
  }

  // ---- framing fields ----

  /** The value a header line gives for `key`, in lower case, if it is such a line. */
  function FieldValue(l: bytes, key: bytes): Option<bytes> {
    var lower := ToLower(TrimSpace(l + CRLF));
    if HasPrefix(lower, key) then Some(TrimSpace(lower[|key|..])) else None
  }

  /** The last value wins; none is the empty string. */
  function LastField(lines: seq<bytes>, key: bytes): bytes {
    if lines == [] then []
    else
      match FieldValue(lines[|lines| - 1], key)
      case Some(v) => v
      case None => LastField(lines[..|lines| - 1], key)
  }

  predicate IsChunked(lines: seq<bytes>) {
    Contains(LastField(lines, TRANSFER_ENCODING), CHUNKED)
  }

  /** Chunked is named anywhere in the value, alone or among other codings. */
  lemma ChunkedNamed(lines: seq<bytes>)
    ensures IsChunked(lines) <==> Within(CHUNKED, LastField(lines, TRANSFER_ENCODING))
  {
    ContainsExact(LastField(lines, TRANSFER_ENCODING), CHUNKED);
    hide Contains, Within, FieldValue;
  }

  // ---- the body ----

  function EndError(e: StreamEnd): HttpError {
    if e == AtEnd then Eof else UnexpectedEof
  }

  function ReadFull(s: bytes, n: nat): (r: Result<(bytes, bytes), HttpError>)
    ensures r.Ok? ==> |r.value.0| == n && |r.value.1| == |s| - n
  {
    match Take(s, n)
    case Err(e) => Err(EndError(e))
    case Ok(x) => Ok(x)
  }

  /** Trailer lines up to the blank line. */
  function SkipTrailers(s: bytes): (r: Result<bytes, HttpError>)
    ensures r.Ok? ==> |r.value| < |s|
    decreases |s|
  {
    match ReadLine(s, MAX_TRAILER_LINE)
    case Err(e) => Err(e)
    case Ok((l, rest)) => if l == [] then Ok(rest) else SkipTrailers(rest)
  }

  /** The size text of a chunk line: trimmed, and cut at the first `;`. */
  function SizeText(l: bytes): bytes {
    BeforeExtension(TrimSpace(l + CRLF))
  }

  function BeforeExtension(t: bytes): bytes {
    var i := IndexByte(t, SEMICOLON);
    if i >= 0 then t[..i] else t
  }

  /** Addition on 64-bit ints. */
  function Add64(x: int, y: int): int {
    var t := x + y;
    if t >= TWO63 then t - 2 * TWO63 else t
  }

  /** One round of `readChunkedBody` when `have` bytes have been collected: the next chunk,
      or None once the terminator and its trailers are consumed. */
  function ReadChunk(s: bytes, have: nat, maxBody: nat): (r: Result<(Option<bytes>, bytes), HttpError>)
    ensures r.Ok? ==> |r.value.1| < |s|
  {
    match ReadLine(s, MAX_CHUNK_LINE)
    case Err(e) => Err(e)
    case Ok((l, rest)) =>
      match ParseInt(SizeText(l), 16)
      case None => Err(BadRequest)
      case Some(n) =>
        if n < 0 then Err(BadRequest)
        else if n == 0 then
          (match SkipTrailers(rest)
           case Err(e) => Err(e)
           case Ok(rest2) => Ok((None, rest2)))
        else if Add64(have, n) > maxBody then Err(TooLarge)
        else if n > MAX_ALLOC then Err(Panicked)
        else ReadChunkData(rest, n)
  }

  /** The data of a chunk and the CRLF that must follow it. */
  function ReadChunkData(s: bytes, n: nat): (r: Result<(Option<bytes>, bytes), HttpError>)
    ensures r.Ok? ==> r.value.0.Some? && |r.value.0.value| == n && |r.value.1| < |s|
  {
    match ReadFull(s, n)
    case Err(e) => Err(e)
    case Ok((chunk, rest)) =>
      match ReadFull(rest, 2)
      case Err(e) => Err(e)
      case Ok((crlf, rest2)) => if crlf == CRLF then Ok((Some(chunk), rest2)) else Err(BadRequest)
  }

  /** `readChunkedBody`: the body still to come and what follows it. */
  function ReadChunks(s: bytes, have: nat, maxBody: nat): (r: Result<(bytes, bytes), HttpError>)
    ensures r.Ok? ==> |r.value.1| < |s|
    decreases |s|
  {
    match ReadChunk(s, have, maxBody)
    case Err(e) => Err(e)
    case Ok((None, rest)) => Ok(([], rest))
    case Ok((Some(chunk), rest)) =>
      match ReadChunks(rest, have + |chunk|, maxBody)
      case Err(e) => Err(e)
      case Ok((more, rest2)) => Ok((chunk + more, rest2))
  }

  // ---- one request ----

  datatype Request = Request(lines: seq<bytes>, chunked: bool, contentLength: int, body: bytes)

  /** `ReadHTTPRequestBody` on the unread bytes `s`. */
  function ReadRequest(s: bytes, maxHeader: nat, maxBody: nat): (r: Result<(Request, bytes), HttpError>)
    ensures r.Ok? ==> |r.value.1| < |s|
  {
    match ReadHead(s, maxHeader)
    case Err(e) => Err(e)
    case Ok((lines, rest)) => ReadBody(lines, rest, maxBody)
  }

  function ReadBody(lines: seq<bytes>, rest: bytes, maxBody: nat): (r: Result<(Request, bytes), HttpError>)
    requires lines != []
    ensures r.Ok? ==> |r.value.1| <= |rest|
  {
    var lengthText := LastField(lines[1..], CONTENT_LENGTH);
    var length := if lengthText == [] then Some(-1) else ParseInt(lengthText, 10);
    if length.None? || (lengthText != [] && length.value < 0) then Err(BadRequest)
    else if IsChunked(lines[1..]) then
      match ReadChunks(rest, 0, maxBody)
      case Err(e) => Err(e)
      case Ok((body, rest2)) => Ok((Request(lines, true, length.value, body), rest2))
    else if length.value < 0 then Err(Unsupported)
    else if length.value > maxBody then Err(TooLarge)
    else
      match ReadFull(rest, length.value)
      case Err(e) => Err(e)
      case Ok((body, rest2)) => Ok((Request(lines, false, length.value, body), rest2))
  }

  /** All requests accepted from a stream, and the error that ends it. */
  datatype RequestLog = RequestLog(requests: seq<Request>, end: HttpError)

  function ReadRequests(s: bytes): RequestLog
    decreases |s|
  {
    match ReadRequest(s, MAX_HEADER, MAX_BODY)
    case Err(e) => RequestLog([], e)
    case Ok((r, rest)) => var log := ReadRequests(rest); RequestLog([r] + log.requests, log.end)
  }

  // ---- what is accepted ----

  lemma ChunkBounded(s: bytes, have: nat, maxBody: nat)
    requires ReadChunk(s, have, maxBody).Ok? && have <= maxBody <= MAX_ALLOC
    requires ReadChunk(s, have, maxBody).value.0.Some?
    ensures have + |ReadChunk(s, have, maxBody).value.0.value| <= maxBody
  {
    hide ReadLine, SizeText, SkipTrailers, ParseInt, ReadChunkData;
  }

  lemma {:induction false} ChunksBounded(s: bytes, have: nat, maxBody: nat)
    requires ReadChunks(s, have, maxBody).Ok? && have <= maxBody <= MAX_ALLOC
    ensures have + |ReadChunks(s, have, maxBody).value.0| <= maxBody
    decreases |s|
  {
    hide ReadChunk;
    var (chunk, rest) := ReadChunk(s, have, maxBody).value;
    if chunk.Some? {
      ChunkBounded(s, have, maxBody);
      ChunksBounded(rest, have + |chunk.value|, maxBody);
    }
  }

  /** Accepted requests have a valid head and a body within the limit. */
  lemma AcceptedBounded(s: bytes, maxHeader: nat, maxBody: nat)
    requires ReadRequest(s, maxHeader, maxBody).Ok? && maxBody <= MAX_ALLOC
    ensures var r := ReadRequest(s, maxHeader, maxBody).value.0;
            ValidHead(r.lines, maxHeader) && |r.body| <= maxBody
  {
    var (lines, rest) := ReadHead(s, maxHeader).value;
    HeadExact(s, maxHeader, lines, rest);
    hide ReadHead, ValidHead;
    if IsChunked(lines[1..]) {
      ChunksBounded(rest, 0, maxBody);
    }
    hide ReadChunks, IsChunked, LastField;
  }

  lemma {:induction false} AllAcceptedBounded(s: bytes)
    ensures forall r <- ReadRequests(s).requests :: ValidHead(r.lines, MAX_HEADER) && |r.body| <= MAX_BODY
    ensures forall r <- ReadRequests(s).requests :: |Block(r.lines)| <= 64 * 1024 && |r.body| <= 16 * 1024 * 1024
    decreases |s|
  {
    match ReadRequest(s, MAX_HEADER, MAX_BODY)
    case Err(_) =>
    case Ok((r, rest)) =>
      AcceptedBounded(s, MAX_HEADER, MAX_BODY);
      hide ReadRequest, ValidHead;
      AllAcceptedBounded(rest);
  }

  // ---- what a client may send ----

  /** One chunk: size digits in either case, an optional extension, and nonempty data. */
  datatype Chunk = Chunk(size: bytes, ext: bytes, data: bytes)

  predicate ValidSizeLine(size: bytes, ext: bytes, n: nat) {
    && size != [] && DigitsValue(size, 16) == Some(n)
    && (ext == [] || ext[0] == SEMICOLON) && LF !in ext
    && |size| + |ext| + 2 <= MAX_CHUNK_LINE
  }

  predicate ValidChunk(c: Chunk) {
    c.data != [] && ValidSizeLine(c.size, c.ext, |c.data|)
  }

  function ChunkBytes(c: Chunk): bytes {
    c.size + c.ext + CRLF + (c.data + CRLF)
  }

  function ChunksBytes(cs: seq<Chunk>): bytes {
    if cs == [] then [] else ChunkBytes(cs[0]) + ChunksBytes(cs[1..])
  }

  function ChunksData(cs: seq<Chunk>): bytes {
    if cs == [] then [] else cs[0].data + ChunksData(cs[1..])
  }

  /** The end of a chunked body: a zero size line, trailers, a blank line. */
  datatype Last = Last(size: bytes, ext: bytes, trailers: seq<bytes>)

  predicate ShortTrailer(t: bytes) {
    |t| + 2 <= MAX_TRAILER_LINE
  }

  predicate ValidLast(z: Last) {
    && ValidSizeLine(z.size, z.ext, 0)
    && ValidFields(z.trailers) && forall t <- z.trailers :: ShortTrailer(t)
  }

  function LastBytes(z: Last): bytes {
    z.size + z.ext + CRLF + Block(z.trailers)
  }

  // ---- the reader inverts it ----

  predicate IsHexDigit(b: byte) {
    DigitValue(b, 16).Some?
  }

  lemma {:induction false} DigitsAreHex(s: bytes)
    requires DigitsValue(s, 16).Some?
    ensures forall b <- s :: IsHexDigit(b)
  {
    if s != [] {
      DigitsAreHex(s[..|s| - 1]);
      assert forall b <- s :: b in s[..|s| - 1] || b == s[|s| - 1];
    }
  }

  lemma SizeLineText(size: bytes, ext: bytes, n: nat)
    requires ValidSizeLine(size, ext, n)
    ensures SizeText(size + ext) == size && LF !in size + ext
  {
    hide SizeText, DigitsValue;
    assert size + [] == size;
    SpacedText(size, [], ext, n);
    SizeNoLf(size, n);
  }

  lemma SizeNoLf(size: bytes, n: nat)
    requires DigitsValue(size, 16) == Some(n)
    ensures LF !in size && SEMICOLON !in size && forall b <- size :: !IsSpace(b)
  {
    DigitsAreHex(size);
  }

  /** Blanks other than a line feed. */
  predicate Blank(ws: bytes) {
    forall b <- ws :: IsSpace(b) && b != LF
  }

  /** A size line with blanks between the size and the extension, as section 7.1.1 of RFC 9112
      allows them. */
  predicate SpacedSizeLine(size: bytes, ws: bytes, ext: bytes, n: nat) {
    && size != [] && DigitsValue(size, 16) == Some(n) && Blank(ws)
    && (ext == [] || ext[0] == SEMICOLON) && LF !in ext
    && |size| + |ws| + |ext| + 2 <= MAX_CHUNK_LINE
  }

  /** What is left of such a line after trimming and cutting at the semicolon. */
  lemma SpacedText(size: bytes, ws: bytes, ext: bytes, n: nat)
    requires size != [] && DigitsValue(size, 16) == Some(n) && Blank(ws) && (ext == [] || ext[0] == SEMICOLON)
    ensures SizeText(size + ws + ext) == if ext == [] then size else size + ws
  {
    hide DigitsValue, IndexByte, TrimRight;
    SizeNoLf(size, n);
    assert size[0] in size && size[|size| - 1] in size;
    var line := size + ws + ext + CRLF;
    assert line[0] == size[0];
    assert TrimLeft(line) == line;
    if ext == [] {
      assert line == size + (ws + CRLF);
      TrimRightSuffix(size, ws + CRLF);
      NoSemicolon(size);
    } else {
      var head := size + ws + [SEMICOLON];
      var tail := ext[1..] + CRLF;
      assert ext == [SEMICOLON] + ext[1..];
      assert line == head + tail;
      TrimRightKeeps(head, tail);
      CutAt(TrimRight(line), size + ws);
    }
  }

  lemma NoSemicolon(s: bytes)
    requires SEMICOLON !in s
    ensures IndexByte(s, SEMICOLON) < 0
  {
    hide IndexByte;
    assert forall k :: 0 <= k < |s| ==> s[k] in s;
  }

  lemma CutAt(t: bytes, s: bytes)
    requires s + [SEMICOLON] <= t && SEMICOLON !in s
    ensures IndexByte(t, SEMICOLON) == |s| && t[..|s|] == s
  {
    hide IndexByte;
    assert t[|s|] == (s + [SEMICOLON])[|s|];
    assert t[..|s|] == (s + [SEMICOLON])[..|s|] == s;
    IndexByteIs(t, SEMICOLON, |s|);
  }

  /** Trimming on the right never goes past a non-space byte. */
  lemma {:induction false} TrimRightKeeps(s: bytes, tail: bytes)
    requires s != [] && !IsSpace(s[|s| - 1])
    ensures s <= TrimRight(s + tail)
  {
    if tail == [] {
      assert s + tail == s;
    } else if IsSpace(tail[|tail| - 1]) {
      assert (s + tail)[..|s + tail| - 1] == s + tail[..|tail| - 1];
      TrimRightKeeps(s, tail[..|tail| - 1]);
    }
  }

  lemma SizeParses(size: bytes, ext: bytes, n: nat)
    requires ValidSizeLine(size, ext, n) && n < TWO63
    ensures ParseInt(SizeText(size + ext), 16) == Some(n)
  {
    hide SizeText;
    SizeLineText(size, ext, n);
    HexFirst(size, n);
  }

  lemma HexFirst(size: bytes, n: nat)
    requires size != [] && DigitsValue(size, 16) == Some(n)
    ensures size[0] != 43 && size[0] != 45
  {
    DigitsAreHex(size);
    assert size[0] in size;
    assert IsHexDigit(size[0]);
  }

  /** The size of such a line is read exactly when it is within 64 bits and no blank stands
      before an extension: the blank is cut off only at the end of the line. */
  lemma SizeLineExact(size: bytes, ws: bytes, ext: bytes, n: nat)
    requires SpacedSizeLine(size, ws, ext, n)
    ensures ParseInt(SizeText(size + ws + ext), 16) == Some(n) <==> n < TWO63 && (ws == [] || ext == [])
    ensures ws != [] && ext != [] ==> ParseInt(SizeText(size + ws + ext), 16) == None
  {
    hide SizeText;
    SpacedText(size, ws, ext, n);
    HexFirst(size, n);
    assert size + [] == size;
    if ws != [] && ext != [] {
      var t := size + ws;
      assert t[|t| - 1] == ws[|ws| - 1] && ws[|ws| - 1] in ws;
      assert DigitValue(t[|t| - 1], 16) == None;
    }
  }

  lemma {:induction false} TrailersSkipped(ts: seq<bytes>, rest: bytes)
    requires ValidFields(ts) && forall t <- ts :: ShortTrailer(t)
    ensures SkipTrailers(Lines(ts) + (CRLF + rest)) == Ok(rest)
    decreases |ts|
  {
    if ts == [] {
      var s := Lines(ts) + (CRLF + rest);
      assert s == [] + CRLF + rest;
      ReadLineExact(s, MAX_TRAILER_LINE, [], rest);
    } else {
      assert ts[0] in ts && ts == [ts[0]] + ts[1..];
      LinesSplitFirst(ts[0], ts[1..], CRLF + rest);
      var s1 := Lines(ts[1..]) + (CRLF + rest);
      ReadLineExact(Lines(ts) + (CRLF + rest), MAX_TRAILER_LINE, ts[0], s1);
      hide ReadLine, Lines;
      TrailersSkipped(ts[1..], rest);
    }
  }

  lemma LastRead(z: Last, rest: bytes, have: nat, maxBody: nat)
    requires ValidLast(z)
    ensures ReadChunk(LastBytes(z) + rest, have, maxBody) == Ok((None, rest))
  {
    hide SizeText, ParseInt, ReadLine;
    var l, s1 := z.size + z.ext, Lines(z.trailers) + (CRLF + rest);
    assert LastBytes(z) + rest == l + CRLF + s1;
    SizeLineText(z.size, z.ext, 0);
    SizeParses(z.size, z.ext, 0);
    ReadLineExact(LastBytes(z) + rest, MAX_CHUNK_LINE, l, s1);
    TrailersSkipped(z.trailers, rest);
  }

  lemma ChunkDataRead(data: bytes, rest: bytes)
    ensures ReadChunkData(data + (CRLF + rest), |data|) == Ok((Some(data), rest))
  {
    var s := data + (CRLF + rest);
    assert s[..|data|] == data && s[|data|..] == CRLF + rest;
    assert (CRLF + rest)[..2] == CRLF && (CRLF + rest)[2..] == rest;
    if data == [] {
      assert s == CRLF + rest;
    }
  }

  /** Reading one chunk leaves exactly what follows it. */
  lemma ChunkRead(c: Chunk, rest: bytes, have: nat, maxBody: nat)
    requires ValidChunk(c) && have + |c.data| <= maxBody <= MAX_ALLOC
    ensures ReadChunk(ChunkBytes(c) + rest, have, maxBody) == Ok((Some(c.data), rest))
  {
    hide SizeText, ParseInt, ReadLine, ReadChunkData;
    var l, s1 := c.size + c.ext, c.data + (CRLF + rest);
    assert ChunkBytes(c) + rest == l + CRLF + s1;
    SizeLineText(c.size, c.ext, |c.data|);
    SizeParses(c.size, c.ext, |c.data|);
    ReadLineExact(ChunkBytes(c) + rest, MAX_CHUNK_LINE, l, s1);
    ChunkDataRead(c.data, rest);
  }

  /** One chunk whose size line has blanks before its extension: read exactly when there are no
      blanks or no extension, and otherwise refused. */
  lemma SpacedChunkRead(size: bytes, ws: bytes, ext: bytes, data: bytes, rest: bytes, have: nat, maxBody: nat)
    requires data != [] && SpacedSizeLine(size, ws, ext, |data|) && have + |data| <= maxBody <= MAX_ALLOC
    ensures var s := size + ws + ext + CRLF + (data + (CRLF + rest));
            ReadChunk(s, have, maxBody) ==
              if ws == [] || ext == [] then Ok((Some(data), rest)) else Err(BadRequest)
  {
    hide SizeText, ParseInt, ReadLine, ReadChunkData, DigitsValue;
    var l, s1 := size + ws + ext, data + (CRLF + rest);
    SizeLineExact(size, ws, ext, |data|);
    SizeNoLf(size, |data|);
    assert LF !in l;
    ReadLineExact(l + CRLF + s1, MAX_CHUNK_LINE, l, s1);
    ChunkDataRead(data, rest);
  }

  /** Any split of a body into chunks, any digit case, extensions and trailers: the reader
      returns the body and leaves exactly the bytes after it. */
  lemma {:induction false} ChunkedInverse(cs: seq<Chunk>, z: Last, rest: bytes, have: nat, maxBody: nat)
    requires (forall c <- cs :: ValidChunk(c)) && ValidLast(z)
    requires have + |ChunksData(cs)| <= maxBody <= MAX_ALLOC
    ensures ReadChunks(ChunksBytes(cs) + (LastBytes(z) + rest), have, maxBody) == Ok((ChunksData(cs), rest))
    decreases |cs|
  {
    hide ReadChunk, ValidChunk, ValidLast, ChunkBytes, LastBytes;
    var tail := LastBytes(z) + rest;
    if cs == [] {
      assert ChunksBytes(cs) + tail == tail;
      LastRead(z, rest, have, maxBody);
    } else {
      Assoc(ChunkBytes(cs[0]), ChunksBytes(cs[1..]), tail);
      ChunkRead(cs[0], ChunksBytes(cs[1..]) + tail, have, maxBody);
      ChunkedInverse(cs[1..], z, rest, have + |cs[0].data|, maxBody);
    }
  }

  lemma {:induction false} ChunksSupported(s: bytes, have: nat, maxBody: nat)
    ensures ReadChunks(s, have, maxBody) != Err(Unsupported)
    decreases |s|
  {
    ChunkSupported(s, have, maxBody);
    hide ReadChunk;
    if ReadChunk(s, have, maxBody).Ok? && ReadChunk(s, have, maxBody).value.0.Some? {
      var (chunk, rest) := ReadChunk(s, have, maxBody).value;
      ChunksSupported(rest, have + |chunk.value|, maxBody);
    }
  }

  lemma ChunkSupported(s: bytes, have: nat, maxBody: nat)
    ensures ReadChunk(s, have, maxBody) != Err(Unsupported)
  {
    hide SizeText, ParseInt, IndexByte;
    if ReadLine(s, MAX_CHUNK_LINE).Ok? {
      TrailersSupported(ReadLine(s, MAX_CHUNK_LINE).value.1);
    }
    hide SkipTrailers;
  }

  lemma {:induction false} TrailersSupported(s: bytes)
    ensures SkipTrailers(s) != Err(Unsupported)
    decreases |s|
  {
    hide IndexByte;
    if ReadLine(s, MAX_TRAILER_LINE).Ok? && ReadLine(s, MAX_TRAILER_LINE).value.0 != [] {
      TrailersSupported(ReadLine(s, MAX_TRAILER_LINE).value.1);
    }
  }

  /** A request is answered Unsupported exactly when neither framing field is there (an empty
      Content-Length counts as none, and so does a Transfer-Encoding that nowhere says chunked);
      section 6.3 of RFC 9112 would give it an empty body. */
  lemma UnsupportedExactly(lines: seq<bytes>, rest: bytes, maxHeader: nat, maxBody: nat)
    requires ValidHead(lines, maxHeader)
    ensures ReadRequest(Block(lines) + rest, maxHeader, maxBody) == Err(Unsupported) <==>
            && LastField(lines[1..], CONTENT_LENGTH) == []
            && !Within(CHUNKED, LastField(lines[1..], TRANSFER_ENCODING))
  {
    ChunkedNamed(lines[1..]);
    hide ReadHead, ReadBody, Block, IsChunked, LastField, ValidHead;
    HeadExact(Block(lines) + rest, maxHeader, lines, rest);
    BodySupported(lines, rest, maxBody);
  }

  lemma BodySupported(lines: seq<bytes>, rest: bytes, maxBody: nat)
    requires lines != []
    ensures ReadBody(lines, rest, maxBody) == Err(Unsupported) <==>
            LastField(lines[1..], CONTENT_LENGTH) == [] && !IsChunked(lines[1..])
  {
    hide ReadChunks, IsChunked, LastField, ParseInt;
    ChunksSupported(rest, 0, maxBody);
  }

  /** A request as a client sends it: a head, then a body in either framing. */
  datatype Sent =
    | WithLength(lines: seq<bytes>, body: bytes)
    | WithChunks(lines: seq<bytes>, chunks: seq<Chunk>, last: Last)

  function BodyOf(m: Sent): bytes {
    match m
    case WithLength(_, body) => body
    case WithChunks(_, chunks, _) => ChunksData(chunks)
  }

  function SentBytes(m: Sent): bytes {
    match m
    case WithLength(lines, body) => Block(lines) + body
    case WithChunks(lines, chunks, last) => Block(lines) + (ChunksBytes(chunks) + LastBytes(last))
  }

  /** What the header lines say about length: None is a malformed value, Some(-1) is absent. */
  function StatedLength(lines: seq<bytes>): Option<int>
    requires lines != []
  {
    var text := LastField(lines[1..], CONTENT_LENGTH);
    if text == [] then Some(-1)
    else
      match ParseInt(text, 10)
      case Some(n) => if n >= 0 then Some(n) else None
      case None => None
  }

  predicate ValidSent(m: Sent) {
    && ValidHead(m.lines, MAX_HEADER) && |BodyOf(m)| <= MAX_BODY
    && match m
       case WithLength(lines, body) => !IsChunked(lines[1..]) && StatedLength(lines) == Some(|body|)
       case WithChunks(lines, chunks, last) =>
         && IsChunked(lines[1..]) && StatedLength(lines).Some?
         && (forall c <- chunks :: ValidChunk(c)) && ValidLast(last)
  }

  function Received(m: Sent): Request
    requires ValidSent(m)
  {
    Request(m.lines, m.WithChunks?, StatedLength(m.lines).value, BodyOf(m))
  }

  /** The reader inverts the wire form: it returns the very header lines and body that were
      sent and leaves exactly what follows. */
  lemma ReaderInverse(m: Sent, rest: bytes)
    requires ValidSent(m)
    ensures ReadRequest(SentBytes(m) + rest, MAX_HEADER, MAX_BODY) == Ok((Received(m), rest))
  {
    hide Block, ChunksBytes, LastBytes, ReadHead, IsChunked, LastField, ValidHead, ParseInt, ReadChunks;
    var tail := if m.WithLength? then m.body + rest else ChunksBytes(m.chunks) + (LastBytes(m.last) + rest);
    assert SentBytes(m) + rest == Block(m.lines) + tail;
    HeadExact(SentBytes(m) + rest, MAX_HEADER, m.lines, tail);
    if m.WithChunks? {
      ChunkedInverse(m.chunks, m.last, rest, 0, MAX_BODY);
    } else {
      assert tail[..|m.body|] == m.body && tail[|m.body|..] == rest;
    }
  }

  function SentAll(ms: seq<Sent>): bytes {
    if ms == [] then [] else SentBytes(ms[0]) + SentAll(ms[1..])
  }

  function ReceivedAll(ms: seq<Sent>): seq<Request>
    requires forall m <- ms :: ValidSent(m)
  {
    if ms == [] then [] else [Received(ms[0])] + ReceivedAll(ms[1..])
  }

  /** n pipelined requests parse as exactly those n requests, then a clean end. */
  lemma {:induction false} PipelinedInverse(ms: seq<Sent>)
    requires forall m <- ms :: ValidSent(m)
    ensures ReadRequests(SentAll(ms)) == RequestLog(ReceivedAll(ms), Eof)
    decreases |ms|
  {
    if ms != [] {
      hide ReadRequest, ValidSent, SentBytes, Received;
      ReaderInverse(ms[0], SentAll(ms[1..]));
      PipelinedInverse(ms[1..]);
    }
  }
}
