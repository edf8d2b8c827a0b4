/** The request reader over a consumed stream: the loops of ReadHTTPRequestBody and
    readChunkedBody, proved against HttpRequest. */
module HttpReader {
  import opened Bytes
  import opened Numbers
  import opened Streams
  import opened HttpRequest

  /** `readLineCRLF`: the line with its CRLF. */
  method ReadLineCRLF(r: Source, max: int) returns (line: Result<bytes, HttpError>)
    requires r.Valid()
    modifies r`pos
    ensures r.Valid()
    ensures match ReadLine(old(r.Rest()), max)
            case Err(e) => line == Err(e)
            case Ok((l, rest)) => line == Ok(l + CRLF) && r.Rest() == rest
  {
    var got := r.ReadThroughLf();
    if got.None? {
      return Err(Eof);
    }
    var raw := got.value;
    if |raw| > max {
      return Err(TooLarge);
    }
    if |raw| < 2 || raw[|raw| - 2] != CR || raw[|raw| - 1] != LF {
      return Err(BadRequest);
    }
    assert raw == raw[..|raw| - 2] + CRLF;
    assert raw[..|raw| - 2] == old(r.Rest())[..IndexByte(old(r.Rest()), LF) - 1];
    return Ok(raw);
  }

  datatype RequestMeta = RequestMeta(
    verb: bytes, path: bytes, proto: bytes,
    transferChunked: bool, contentLength: int, headerBytes: bytes)

  /** What reading on from here adds to lines already read. */
  ghost function Prepend(lines: seq<bytes>, r: Result<(seq<bytes>, bytes), HttpError>)
    : Result<(seq<bytes>, bytes), HttpError>
  {
    match r
    case Err(e) => Err(e)
    case Ok((more, rest)) => Ok((lines + more, rest))
  }

  ghost function PrependBody(body: bytes, r: Result<(bytes, bytes), HttpError>): Result<(bytes, bytes), HttpError> {
    match r
    case Err(e) => Err(e)
    case Ok((more, rest)) => Ok((body + more, rest))
  }

  lemma LinesSnoc(ls: seq<bytes>, l: bytes)
    ensures Lines(ls + [l]) == Lines(ls) + (l + CRLF)
  {
    LinesAppend(ls, [l]);
    assert [l][1..] == [];
    assert Lines([l]) == l + CRLF;
  }

  /** How one more header line changes the last values of the framing fields. */
  lemma FieldUpdate(ls: seq<bytes>, l: bytes, key: bytes)
    ensures var lower := ToLower(TrimSpace(l + CRLF));
            LastField(ls + [l], key) ==
            if HasPrefix(lower, key) then TrimSpace(lower[|key|..]) else LastField(ls, key)
  {
    assert (ls + [l])[..|ls|] == ls;
  }

  lemma KeysDiffer(lower: bytes)
    ensures !(HasPrefix(lower, TRANSFER_ENCODING) && HasPrefix(lower, CONTENT_LENGTH))
  {
    if HasPrefix(lower, TRANSFER_ENCODING) {
      assert lower[0] == 116;
    }
  }

  lemma PrependNothing(r: Result<(seq<bytes>, bytes), HttpError>)
    ensures Prepend([], r) == r
  {
    match r
    case Ok((more, _)) => assert [] + more == more;
    case Err(_) =>
  }

  lemma FieldsNext(lines: seq<bytes>, s: bytes, budget: int)
    ensures Prepend(lines, ReadFields(s, budget)) ==
            match ReadLine(s, budget)
            case Err(e) => Err(e)
            case Ok((l, rest)) =>
              if l == [] then Ok((lines, rest))
              else Prepend(lines + [l], ReadFields(rest, budget - (|l| + 2)))
  {
    hide ReadLine;
    match ReadLine(s, budget)
    case Err(_) =>
    case Ok((l, rest)) =>
      if l == [] {
        assert lines + [] == lines;
      } else {
        match ReadFields(rest, budget - (|l| + 2))
        case Ok((more, _)) => Assoc(lines, [l], more);
        case Err(_) =>
      }
  }

  /** The header loop: lines up to the blank one, collecting the bytes and the last values
      of the two framing fields. */
  method ReadHeaderLines(r: Source, first: bytes, maxHeader: nat)
    returns (err: Option<HttpError>, headerBytes: bytes, transferEncoding: bytes, contentLengthStr: bytes,
             ghost lines: seq<bytes>)
    requires r.Valid()
    modifies r`pos
    ensures r.Valid()
    ensures match ReadFields(old(r.Rest()), maxHeader - |first|)
            case Err(e) => err == Some(e)
            case Ok((ls, rest)) =>
              && err == None && lines == ls && r.Rest() == rest
              && headerBytes == first + Lines(ls) + CRLF
              && transferEncoding == LastField(ls, TRANSFER_ENCODING)
              && contentLengthStr == LastField(ls, CONTENT_LENGTH)
  {
    hide ReadLine, ReadFields, Lines, LastField, ToLower, TrimSpace, Prepend;
    headerBytes, transferEncoding, contentLengthStr := first, [], [];
    lines := [];
    ghost var start, budget := r.Rest(), maxHeader - |first|;
    HeaderStart(first, ReadFields(start, budget));
    while true
      invariant r.Valid()
      invariant headerBytes == first + Lines(lines)
      invariant transferEncoding == LastField(lines, TRANSFER_ENCODING)
      invariant contentLengthStr == LastField(lines, CONTENT_LENGTH)
      invariant ReadFields(start, budget) == Prepend(lines, ReadFields(r.Rest(), maxHeader - |headerBytes|))
      decreases |r.data| - r.pos
    {
      ghost var before := r.Rest();
      var got := ReadLineCRLF(r, maxHeader - |headerBytes|);
      FieldsNext(lines, before, maxHeader - |headerBytes|);
      if got.Err? {
        return Some(got.error), headerBytes, transferEncoding, contentLengthStr, lines;
      }
      var line := got.value;
      ghost var l := ReadLine(before, maxHeader - |headerBytes|).value.0;
      Assoc(first, Lines(lines), line);
      headerBytes := headerBytes + line;
      if line == CRLF {
        assert l == [];
        err := None;
        return;
      }
      assert l != [];
      var lower := ToLower(TrimSpace(line));
      KeysDiffer(lower);
      FieldUpdate(lines, l, TRANSFER_ENCODING);
      FieldUpdate(lines, l, CONTENT_LENGTH);
      LinesSnoc(lines, l);
      lines := lines + [l];
      if HasPrefix(lower, TRANSFER_ENCODING) {
        transferEncoding := TrimSpace(lower[|TRANSFER_ENCODING|..]);
      } else if HasPrefix(lower, CONTENT_LENGTH) {
        contentLengthStr := TrimSpace(lower[|CONTENT_LENGTH|..]);
      }
    }
  }

  lemma HeaderStart(first: bytes, r: Result<(seq<bytes>, bytes), HttpError>)
    ensures Lines([]) == [] && first + Lines([]) == first
    ensures LastField([], TRANSFER_ENCODING) == [] && LastField([], CONTENT_LENGTH) == []
    ensures Prepend([], r) == r
  {
    PrependNothing(r);
  }

  // ---- bodies ----

  lemma ChunksNext(body: bytes, s: bytes, maxBody: nat)
    ensures var r := ReadChunk(s, |body|, maxBody);
            PrependBody(body, ReadChunks(s, |body|, maxBody)) ==
            match r
            case Err(e) => Err(e)
            case Ok((None, rest)) => Ok((body, rest))
            case Ok((Some(chunk), rest)) => PrependBody(body + chunk, ReadChunks(rest, |body + chunk|, maxBody))
  {
    hide ReadChunk;
    match ReadChunk(s, |body|, maxBody)
    case Err(_) =>
    case Ok((None, _)) => assert body + [] == body;
    case Ok((Some(chunk), rest)) =>
      match ReadChunks(rest, |body + chunk|, maxBody)
      case Ok((more, _)) => Assoc(body, chunk, more);
      case Err(_) =>
  }

  lemma BodyStart(r: Result<(bytes, bytes), HttpError>)
    ensures PrependBody([], r) == r
  {
    match r
    case Ok((more, _)) => assert [] + more == more;
    case Err(_) =>
  }

  /** The trailer loop. */
  method SkipTrailerLines(r: Source) returns (err: Option<HttpError>)
    requires r.Valid()
    modifies r`pos
    ensures r.Valid()
    ensures match SkipTrailers(old(r.Rest()))
            case Err(e) => err == Some(e)
            case Ok(rest) => err == None && r.Rest() == rest
  {
    hide ReadLine;
    while true
      invariant r.Valid()
      invariant SkipTrailers(r.Rest()) == SkipTrailers(old(r.Rest()))
      decreases |r.data| - r.pos
    {
      ghost var before := r.Rest();
      var trailer := ReadLineCRLF(r, MAX_TRAILER_LINE);
      if trailer.Err? {
        return Some(trailer.error);
      }
      ghost var l := ReadLine(before, MAX_TRAILER_LINE).value.0;
      if trailer.value == CRLF {
        assert l == [];
        return None;
      }
      assert l != [];
    }
  }

  /** `readChunkedBody`. */
  method ReadChunkedBody(r: Source, maxBody: nat) returns (res: Result<bytes, HttpError>)
    requires r.Valid()
    modifies r`pos
    ensures r.Valid()
    ensures match ReadChunks(old(r.Rest()), 0, maxBody)
            case Err(e) => res == Err(e)
            case Ok((body, rest)) => res == Ok(body) && r.Rest() == rest
  {
    hide ReadLine, ParseInt, TrimSpace, SkipTrailers, ReadChunks, PrependBody;
    var body: bytes := [];
    ghost var start := r.Rest();
    BodyStart(ReadChunks(start, 0, maxBody));
    while true
      invariant r.Valid()
      invariant ReadChunks(start, 0, maxBody) == PrependBody(body, ReadChunks(r.Rest(), |body|, maxBody))
      decreases |r.data| - r.pos
    {
      ghost var before := r.Rest();
      ChunksNext(body, before, maxBody);
      var line := ReadLineCRLF(r, MAX_CHUNK_LINE);
      if line.Err? {
        return Err(line.error);
      }
      ghost var l := ReadLine(before, MAX_CHUNK_LINE).value.0;
      var sizeHex := TrimSpace(line.value);
      var i := IndexByte(sizeHex, SEMICOLON);
      if i >= 0 {
        sizeHex := sizeHex[..i];
      }
      assert sizeHex == SizeText(l);
      var n := ParseInt(sizeHex, 16);
      if n.None? || n.value < 0 {
        return Err(BadRequest);
      }
      if n.value == 0 {
        var err := SkipTrailerLines(r);
        if err.Some? {
          return Err(err.value);
        }
        return Ok(body);
      }
      if Add64(|body|, n.value) > maxBody {
        return Err(TooLarge);
      }
      if n.value > MAX_ALLOC {
        return Err(Panicked);
      }
      var chunk := r.Fill(n.value);
      if chunk.Err? {
        return Err(EndError(chunk.error));
      }
      var crlf := r.Fill(2);
      if crlf.Err? {
        return Err(EndError(crlf.error));
      }
      if crlf.value != CRLF {
        return Err(BadRequest);
      }
      body := body + chunk.value;
    }
  }

  // ---- one request ----

  /** `ReadHTTPRequestBody`: exactly one request, or the error that ends the stream. */
  method ReadHTTPRequestBody(r: Source, maxHeader: nat, maxBody: nat)
    returns (res: Result<(RequestMeta, bytes), HttpError>, ghost lines: seq<bytes>)
    requires r.Valid()
    modifies r`pos
    ensures r.Valid()
    ensures match ReadRequest(old(r.Rest()), maxHeader, maxBody)
            case Err(e) => res == Err(e)
            case Ok((q, rest)) =>
              && res.Ok? && r.Rest() == rest && res.value.1 == q.body
              && res.value.0.headerBytes == Block(q.lines) && lines == q.lines
              && res.value.0.transferChunked == q.chunked
              && (q.chunked <==> Within(CHUNKED, LastField(q.lines[1..], TRANSFER_ENCODING)))
              && res.value.0.contentLength == q.contentLength
              && (var parts := RequestLineParts(q.lines[0]);
                  |parts| >= 3 && res.value.0.verb == parts[0]
                  && res.value.0.path == parts[1] && res.value.0.proto == parts[2])
  {
    hide ReadLine, ReadFields, ReadChunks, LastField, ParseInt, Lines, Split, TrimSpace;
    lines := [];
    var reqLine := ReadLineCRLF(r, maxHeader);
    if reqLine.Err? {
      return Err(reqLine.error), lines;
    }
    ghost var first := ReadLine(old(r.Rest()), maxHeader).value.0;
    var parts := Split(TrimSpace(reqLine.value), [SPACE]);
    assert parts == RequestLineParts(first);
    if |parts| < 3 {
      return Err(BadRequest), lines;
    }
    ghost var fields;
    var err, headerBytes, transferEncoding, contentLengthStr;
    err, headerBytes, transferEncoding, contentLengthStr, fields := ReadHeaderLines(r, reqLine.value, maxHeader);
    if err.Some? {
      return Err(err.value), lines;
    }
    lines := [first] + fields;
    assert lines[0] == first && lines[1..] == fields;
    LinesSplitFirst(first, fields, CRLF);
    Assoc(reqLine.value, Lines(fields), CRLF);
    assert headerBytes == Block(lines);
    assert ReadHead(old(r.Rest()), maxHeader) == Ok((lines, r.Rest()));
    var chunked := Contains(transferEncoding, CHUNKED);
    ChunkedNamed(fields);
    var contentLength := -1;
    if contentLengthStr != [] {
      var n := ParseInt(contentLengthStr, 10);
      if n.None? || n.value < 0 {
        return Err(BadRequest), lines;
      }
      contentLength := n.value;
    }
    var meta := RequestMeta(parts[0], parts[1], parts[2], chunked, contentLength, headerBytes);
    if chunked {
      var body := ReadChunkedBody(r, maxBody);
      if body.Err? {
        return Err(body.error), lines;
      }
      return Ok((meta, body.value)), lines;
    }
    if contentLength >= 0 {
      if contentLength > maxBody {
        return Err(TooLarge), lines;
      }
      var body := r.Fill(contentLength);
      if body.Err? {
        return Err(EndError(body.error)), lines;
      }
      return Ok((meta, body.value)), lines;
    }
    return Err(Unsupported), lines;
  }
}
