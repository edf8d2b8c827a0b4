/** A client's stream cut short anywhere: the requests wholly inside the cut are accepted and
    encoded as before, and a cut request is never accepted. */
module CutInput {
  import opened Bytes
  import opened Numbers
  import opened HttpRequest
  import P = Protocol
  import opened EncoderSpec
  import opened Framing
  import opened Sessions
  import opened ByteExact

  /** An end of file, at a boundary of the bytes being read or inside them. */
  predicate EndOfFile(e: HttpError) {
    e == HttpError.Eof || e == HttpError.UnexpectedEof
  }

  /** How a reader fares on the first k bytes of `s`, when it makes `full` of all of them. It
      meets an end of file, though not if all it consumes is there; or it ends as on all of
      `s`, with the rest cut short. */
  predicate CutOf<T(==)>(s: bytes, k: nat, full: Result<(T, bytes), HttpError>, cut: Result<(T, bytes), HttpError>) {
    match full
    case Err(e) => cut.Err? && (EndOfFile(cut.error) || cut.error == e)
    case Ok((x, rest)) =>
      && |rest| <= |s|
      && if k < |s| - |rest| then cut.Err? && EndOfFile(cut.error)
         else k <= |s| && cut == Ok((x, rest[..k - (|s| - |rest|)]))
  }

  lemma LineCut(s: bytes, max: int, k: nat)
    requires k <= |s|
    ensures CutOf(s, k, ReadLine(s, max), ReadLine(s[..k], max))
  {
    var i := IndexByte(s, LF);
    if 0 <= i < k {
      IndexByteIs(s[..k], LF, i);
      hide IndexByte;
      assert s[..k][..i] == s[..i];
      if i > 0 {
        assert s[..k][..i - 1] == s[..i - 1];
        assert s[..k][i + 1..] == s[i + 1..][..k - (i + 1)];
      }
    } else {
      assert LF !in s[..k] by {
        assert i < 0 ==> LF !in s;
        assert forall j :: 0 <= j < k && 0 <= i ==> s[j] == s[..i][j];
      }
      var j := IndexByte(s[..k], LF);
    }
  }

  lemma {:induction false} FieldsCut(s: bytes, budget: int, k: nat)
    requires k <= |s|
    ensures CutOf(s, k, ReadFields(s, budget), ReadFields(s[..k], budget))
    decreases |s|
  {
    hide ReadLine;
    LineCut(s, budget, k);
    if ReadLine(s, budget).Ok? {
      var (l, rest) := ReadLine(s, budget).value;
      var used := |s| - |rest|;
      if k >= used && l != [] {
        FieldsCut(rest, budget - (|l| + 2), k - used);
      }
    }
  }

  lemma HeadCut(s: bytes, maxHeader: nat, k: nat)
    requires k <= |s|
    ensures CutOf(s, k, ReadHead(s, maxHeader), ReadHead(s[..k], maxHeader))
  {
    hide ReadLine, ReadFields, RequestLineParts;
    LineCut(s, maxHeader, k);
    if ReadLine(s, maxHeader).Ok? {
      var (l, rest) := ReadLine(s, maxHeader).value;
      var used := |s| - |rest|;
      if k >= used {
        FieldsCut(rest, maxHeader - (|l| + 2), k - used);
      }
    }
  }

  /** `SkipTrailers` as a reader with nothing to say but the rest. */
  function Trailers(s: bytes): Result<((), bytes), HttpError> {
    match SkipTrailers(s)
    case Err(e) => Err(e)
    case Ok(rest) => Ok(((), rest))
  }

  lemma {:induction false} TrailersCut(s: bytes, k: nat)
    requires k <= |s|
    ensures CutOf(s, k, Trailers(s), Trailers(s[..k]))
    decreases |s|
  {
    hide ReadLine;
    LineCut(s, MAX_TRAILER_LINE, k);
    if ReadLine(s, MAX_TRAILER_LINE).Ok? {
      var (l, rest) := ReadLine(s, MAX_TRAILER_LINE).value;
      var used := |s| - |rest|;
      if k >= used && l != [] {
        TrailersCut(rest, k - used);
      }
    }
  }

  lemma FullCut(s: bytes, n: nat, k: nat)
    requires k <= |s|
    ensures CutOf(s, k, ReadFull(s, n), ReadFull(s[..k], n))
  {
    if n <= k {
      assert s[..k][..n] == s[..n] && s[..k][n..] == s[n..][..k - n];
    }
  }

  lemma DataCut(s: bytes, n: nat, k: nat)
    requires k <= |s|
    ensures CutOf(s, k, ReadChunkData(s, n), ReadChunkData(s[..k], n))
  {
    hide ReadFull;
    FullCut(s, n, k);
    if ReadFull(s, n).Ok? {
      var (chunk, rest) := ReadFull(s, n).value;
      var used := |s| - |rest|;
      if k >= used {
        FullCut(rest, 2, k - used);
      }
    }
  }

  lemma ChunkCut(s: bytes, have: nat, maxBody: nat, k: nat)
    requires k <= |s|
    ensures CutOf(s, k, ReadChunk(s, have, maxBody), ReadChunk(s[..k], have, maxBody))
  {
    hide ReadLine, SizeText, ParseInt, SkipTrailers, ReadChunkData;
    LineCut(s, MAX_CHUNK_LINE, k);
    if ReadLine(s, MAX_CHUNK_LINE).Ok? {
      var (l, rest) := ReadLine(s, MAX_CHUNK_LINE).value;
      var used := |s| - |rest|;
      if k >= used {
        TrailersCut(rest, k - used);
        match ParseInt(SizeText(l), 16)
        case Some(n) =>
          if n > 0 {
            DataCut(rest, n, k - used);
          }
        case None =>
      }
    }
  }

  lemma {:induction false} ChunksCut(s: bytes, have: nat, maxBody: nat, k: nat)
    requires k <= |s|
    ensures CutOf(s, k, ReadChunks(s, have, maxBody), ReadChunks(s[..k], have, maxBody))
    decreases |s|
  {
    hide ReadChunk;
    ChunkCut(s, have, maxBody, k);
    if ReadChunk(s, have, maxBody).Ok? {
      var (chunk, rest) := ReadChunk(s, have, maxBody).value;
      var used := |s| - |rest|;
      if k >= used && chunk.Some? {
        ChunksCut(rest, have + |chunk.value|, maxBody, k - used);
      }
    }
  }

  lemma BodyCut(lines: seq<bytes>, s: bytes, maxBody: nat, k: nat)
    requires lines != [] && k <= |s|
    ensures CutOf(s, k, ReadBody(lines, s, maxBody), ReadBody(lines, s[..k], maxBody))
  {
    hide ReadChunks, ReadFull, IsChunked, LastField, ParseInt;
    ChunksCut(s, 0, maxBody, k);
    var text := LastField(lines[1..], CONTENT_LENGTH);
    if text != [] && ParseInt(text, 10).Some? && ParseInt(text, 10).value >= 0 {
      FullCut(s, ParseInt(text, 10).value, k);
    }
  }

  /** One request, from a stream cut anywhere: the same request or refusal as from all of it,
      or an end of file; the latter whenever bytes of an accepted request are missing, and never
      when all of them are there. */
  lemma RequestCut(s: bytes, maxHeader: nat, maxBody: nat, k: nat)
    requires k <= |s|
    ensures CutOf(s, k, ReadRequest(s, maxHeader, maxBody), ReadRequest(s[..k], maxHeader, maxBody))
  {
    hide ReadHead, ReadBody;
    HeadCut(s, maxHeader, k);
    if ReadHead(s, maxHeader).Ok? {
      var (lines, rest) := ReadHead(s, maxHeader).value;
      var used := |s| - |rest|;
      if k >= used {
        BodyCut(lines, rest, maxBody, k - used);
      }
    }
  }

  // ---- streams of requests ----

  /** How many requests of a stream lie wholly in its first k bytes. */
  function WholeRequests(s: bytes, k: nat): nat
    decreases |s|
  {
    match ReadRequest(s, MAX_HEADER, MAX_BODY)
    case Err(_) => 0
    case Ok((_, rest)) =>
      var used := |s| - |rest|;
      if k < used then 0 else 1 + WholeRequests(rest, k - used)
  }

  /** On any front of any stream, well formed or not: the requests accepted are exactly those
      wholly inside it, and the end is an end of file, or else the very refusal that ends the
      whole stream after the same requests. */
  lemma {:induction false} RequestsCut(s: bytes, k: nat)
    requires k <= |s|
    ensures var full, cut, j := ReadRequests(s), ReadRequests(s[..k]), WholeRequests(s, k);
            && j <= |full.requests| && cut.requests == full.requests[..j]
            && (EndOfFile(cut.end) || (j == |full.requests| && cut.end == full.end))
    decreases |s|
  {
    hide ReadRequest;
    RequestCut(s, MAX_HEADER, MAX_BODY, k);
    match ReadRequest(s, MAX_HEADER, MAX_BODY)
    case Err(_) =>
    case Ok((r, rest)) =>
      var used := |s| - |rest|;
      if k >= used {
        RequestsCut(rest, k - used);
        assert ReadRequests(s).requests == [r] + ReadRequests(rest).requests;
      }
  }

  /** How many of the sent requests lie wholly in the first k bytes sent. */
  function WholeSent(ms: seq<Sent>, k: nat): nat {
    if ms == [] || k < |SentBytes(ms[0])| then 0 else 1 + WholeSent(ms[1..], k - |SentBytes(ms[0])|)
  }

  /** It is the largest number whose bytes fit. */
  lemma {:induction false} WholeSentExact(ms: seq<Sent>, k: nat, j: nat)
    requires j <= |ms|
    ensures WholeSent(ms, k) <= |ms|
    ensures |SentAll(ms[..j])| <= k <==> j <= WholeSent(ms, k)
  {
    hide SentBytes;
    if ms != [] && j > 0 {
      assert ms[..j][1..] == ms[1..][..j - 1];
      if k >= |SentBytes(ms[0])| {
        WholeSentExact(ms[1..], k - |SentBytes(ms[0])|, j - 1);
      }
    } else if ms != [] && k >= |SentBytes(ms[0])| {
      WholeSentExact(ms[1..], k - |SentBytes(ms[0])|, 0);
    }
  }

  lemma {:induction false} SentWhole(ms: seq<Sent>, k: nat)
    requires forall m <- ms :: ValidSent(m)
    ensures WholeRequests(SentAll(ms), k) == WholeSent(ms, k) <= |ms|
    decreases |ms|
  {
    hide ReadRequest, ValidSent, SentBytes, Received;
    if ms != [] {
      ReaderInverse(ms[0], SentAll(ms[1..]));
      if k >= |SentBytes(ms[0])| {
        SentWhole(ms[1..], k - |SentBytes(ms[0])|);
      }
    }
  }

  lemma {:induction false} ReceivedFront(ms: seq<Sent>, j: nat)
    requires (forall m <- ms :: ValidSent(m)) && j <= |ms|
    ensures |ReceivedAll(ms)| == |ms| && ReceivedAll(ms[..j]) == ReceivedAll(ms)[..j]
  {
    hide ValidSent, Received;
    if ms != [] {
      ReceivedFront(ms[1..], if j > 0 then j - 1 else 0);
      if j > 0 {
        assert ms[..j][1..] == ms[1..][..j - 1];
      }
    }
  }

  /** A client cut off anywhere in n valid requests: exactly those whose bytes all arrived are
      accepted, each as it was sent, and the stream ends with an end of file. */
  lemma PipelinedCut(ms: seq<Sent>, k: nat)
    requires (forall m <- ms :: ValidSent(m)) && k <= |SentAll(ms)|
    ensures WholeSent(ms, k) <= |ms|
    ensures var log := ReadRequests(SentAll(ms)[..k]);
            log.requests == ReceivedAll(ms[..WholeSent(ms, k)]) && EndOfFile(log.end)
  {
    hide ReadRequests, WholeRequests, WholeSent, ReceivedAll, SentAll, ValidSent;
    PipelinedInverse(ms);
    RequestsCut(SentAll(ms), k);
    SentWhole(ms, k);
    ReceivedFront(ms, WholeSent(ms, k));
  }

  /** The head is read line by line, so an end of file in it looks like a clean end. */
  lemma {:induction false} FieldsEndClean(s: bytes, budget: int)
    ensures ReadFields(s, budget) != Err(HttpError.UnexpectedEof)
    decreases |s|
  {
    hide IndexByte;
    if ReadLine(s, budget).Ok? && ReadLine(s, budget).value.0 != [] {
      var (l, rest) := ReadLine(s, budget).value;
      FieldsEndClean(rest, budget - (|l| + 2));
    }
  }

  lemma HeadEndsClean(s: bytes, maxHeader: nat)
    ensures ReadHead(s, maxHeader) != Err(HttpError.UnexpectedEof)
  {
    hide IndexByte, RequestLineParts, ReadFields;
    if ReadLine(s, maxHeader).Ok? {
      var (l, rest) := ReadLine(s, maxHeader).value;
      FieldsEndClean(rest, maxHeader - (|l| + 2));
    }
  }

  /** A request with a length, cut off: inside its head, or right after it, that is taken for a
      clean end of the stream; only a cut inside the body is an unexpected one. */
  lemma LengthCutEnd(m: Sent, k: nat)
    requires ValidSent(m) && m.WithLength? && k < |SentBytes(m)|
    ensures ReadRequest(SentBytes(m)[..k], MAX_HEADER, MAX_BODY) ==
            Err(if k <= |Block(m.lines)| then HttpError.Eof else HttpError.UnexpectedEof)
  {
    hide ReadHead, Block, IsChunked, LastField, ValidHead, ParseInt;
    var s, n := SentBytes(m), |Block(m.lines)|;
    HeadExact(s, MAX_HEADER, m.lines, m.body);
    HeadCut(s, MAX_HEADER, k);
    HeadEndsClean(s[..k], MAX_HEADER);
    if k >= n {
      assert |m.body[..k - n]| == k - n;
    }
  }

  // ---- what the encoder makes of a cut ----

  lemma {:induction false} MessagesFront(rs: seq<Request>, j: nat)
    requires j <= |rs|
    ensures j <= |MessagesFor(rs)| && MessagesFor(rs[..j]) == MessagesFor(rs)[..j]
  {
    if j > 0 {
      hide MessageFor;
      assert rs[..j][1..] == rs[1..][..j - 1];
      MessagesFront(rs[1..], j - 1);
    }
  }

  lemma {:induction false} PiecesFront(ms: seq<Message>, j: nat)
    requires j <= |ms|
    ensures RunPieces(ms[..j]) <= RunPieces(ms)
  {
    if j > 0 {
      hide MessagePieces;
      assert ms[..j][1..] == ms[1..][..j - 1];
      PiecesFront(ms[1..], j - 1);
    }
  }

  /** Cut the client's stream anywhere: the encoder sends a front of what it sends for all of it,
      and that front carries exactly the messages wholly inside the cut. */
  lemma WireCut(h: IdFn, s: bytes, k: nat)
    requires k <= |s|
    ensures var j := WholeRequests(s, k);
            && j <= |Accepted(s)| && Accepted(s[..k]) == Accepted(s)[..j]
            && Wire(h, s[..k]) <= Wire(h, s)
  {
    hide ReadRequests, MessagesFor, RunPieces, EmitAll, WholeRequests, P.WireOf;
    var j := WholeRequests(s, k);
    RequestsCut(s, k);
    MessagesFront(ReadRequests(s).requests, j);
    var ms := Accepted(s);
    PiecesFront(ms, j);
    var x, all := RunPieces(ms[..j]), RunPieces(ms);
    assert all == x + all[|x|..];
    EmitAllAppend(h, START, x, all[|x|..]);
    var e := EmitAll(h, START, x);
    P.WireOfAppend(e.frames, EmitAll(h, e.st, all[|x|..]).frames);
  }
}
