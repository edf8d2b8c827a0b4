/** Concrete requests: a first line, some plain header lines, a true length, a body; what
    becomes of them on the way to the wire, and what a run over one of them leaves behind. */
module Requests {
  import opened Bytes
  import opened Numbers
  import opened Protocol
  import opened Splitter
  import opened DecoderSpec
  import opened EncoderSpec
  import opened Framing
  import opened Agreement
  import opened HttpRequest
  import opened Normalizer
  import opened Sessions
  import opened ByteExact

  predicate GoodFirst(l: bytes) {
    l != [] && LF !in l && |RequestLineParts(l)| >= 3 && |l| <= 100
  }

  predicate GoodField(f: bytes) {
    FieldLine(f) && PlainLine(f) && |f| <= 100
  }

  predicate GoodFields(fs: seq<bytes>) {
    |fs| <= 20 && forall f <- fs :: GoodField(f)
  }

  function LinesOf(l: bytes, fs: seq<bytes>, n: nat): seq<bytes> {
    [l] + fs + [LengthLine(n)]
  }

  function Post(l: bytes, fs: seq<bytes>, body: bytes): Sent {
    WithLength(LinesOf(l, fs, |body|), body)
  }

  function PostMessage(l: bytes, fs: seq<bytes>, body: bytes): Message {
    Message(Block(LinesOf(l, fs, |body|)), body)
  }

  // ---- accepted and sent on as it is ----

  lemma {:induction false} ShortLines(ls: seq<bytes>)
    requires forall l <- ls :: |l| <= 100
    ensures |Lines(ls)| <= 102 * |ls|
  {
    if ls != [] {
      assert forall l <- ls[1..] :: l in ls;
      assert ls[0] in ls;
      ShortLines(ls[1..]);
    }
  }

  lemma {:induction false} KeptSame(fs: seq<bytes>)
    requires forall f <- fs :: GoodField(f)
    ensures Kept(fs) == fs
  {
    if fs != [] {
      assert fs[0] in fs && forall f <- fs[1..] :: f in fs;
      assert PlainLine(fs[0]);
      hide IsFraming, GoodField;
      KeptSame(fs[1..]);
    }
  }

  lemma NothingChunked()
    ensures !Contains([], CHUNKED)
  {}

  lemma PostFields(l: bytes, fs: seq<bytes>, n: nat)
    requires GoodFirst(l) && GoodFields(fs) && n <= MAX_BODY
    ensures var ls := LinesOf(l, fs, n);
            && ls[1..] == fs + [LengthLine(n)] && ValidHead(ls, MAX_HEADER)
            && NormalLines(ls, n) == ls
            && LastField(ls[1..], CONTENT_LENGTH) == Itoa(n) && !IsChunked(ls[1..])
  {
    hide RequestLineParts, IsFraming, FieldValue, LengthLine, WhitespaceLed, LastField, Kept, Lines;
    var ls, f := LinesOf(l, fs, n), LengthLine(n);
    LengthLineValid(n);
    LengthLineShort(n);
    LengthLineFields(n);
    KeptSame(fs);
    assert ls == [l] + (fs + [f]);
    forall k | k in fs + [f]
      ensures FieldLine(k)
    {
      assert k in fs ==> GoodField(k);
    }
    assert forall k <- fs :: GoodField(k) && PlainLine(k);
    KeptOfJoined(fs, f);
    forall k | k in ls
      ensures |k| <= 100
    {
      assert k in fs ==> GoodField(k);
    }
    ShortLines(ls);
    PlainKeptNotChunked(fs);
    LastFieldSnoc(fs, f, CONTENT_LENGTH);
    LastFieldSnoc(fs, f, TRANSFER_ENCODING);
    NothingChunked();
  }

  /** Such a request is valid, and its message is the request itself. */
  lemma PostSent(l: bytes, fs: seq<bytes>, body: bytes)
    requires GoodFirst(l) && GoodFields(fs) && |body| <= MAX_BODY
    ensures ValidSent(Post(l, fs, body))
    ensures var r := Received(Post(l, fs, body));
            r.lines == LinesOf(l, fs, |body|) && r.body == body && MessageFor(r) == PostMessage(l, fs, body)
  {
    hide ValidHead, LastField, IsChunked, NormalLines, Block, Itoa, ParseInt, Normalize, GoodFields;
    PostFields(l, fs, |body|);
    ItoaRoundTrip(|body|);
    assert ValidSent(Post(l, fs, body));
    HeadOf(Received(Post(l, fs, body)));
  }

  lemma HeadOf(r: Request)
    requires ValidHead(r.lines, MAX_HEADER)
    ensures HeaderFor(r) == Block(NormalLines(r.lines, |r.body|))
  {
    hide RequestLineParts, NormalLines, Block, Normalize;
    NormalizeBlock(r.lines, |r.body|);
  }

  /** What the encoder makes of one such request, and of two. */
  lemma OneAccepted(s: Sent)
    requires ValidSent(s)
    ensures ReadRequests(SentBytes(s)) == RequestLog([Received(s)], HttpError.Eof)
    ensures Accepted(SentBytes(s)) == [MessageFor(Received(s))]
  {
    hide ValidSent, Received, SentBytes, ReadRequests, MessageFor;
    assert [s][1..] == [] && SentBytes(s) + [] == SentBytes(s);
    assert SentAll([s]) == SentBytes(s) + SentAll([]);
    assert ReceivedAll([s]) == [Received(s)] + ReceivedAll([]);
    PipelinedInverse([s]);
    var r := Received(s);
    assert [r][1..] == [] && MessagesFor([r]) == [MessageFor(r)] + MessagesFor([]);
  }

  lemma TwoAccepted(s: Sent, t: Sent)
    requires ValidSent(s) && ValidSent(t)
    ensures ReadRequests(SentAll([s, t])) == RequestLog([Received(s), Received(t)], HttpError.Eof)
    ensures Accepted(SentAll([s, t])) == [MessageFor(Received(s)), MessageFor(Received(t))]
  {
    hide ValidSent, Received, SentBytes, ReadRequests, MessageFor;
    assert [s, t][1..] == [t] && [t][1..] == [];
    assert ReceivedAll([t]) == [Received(t)] + ReceivedAll([]);
    assert ReceivedAll([s, t]) == [Received(s)] + ReceivedAll([t]);
    PipelinedInverse([s, t]);
    var q, r := Received(s), Received(t);
    assert [q, r][1..] == [r] && [r][1..] == [];
    assert MessagesFor([r]) == [MessageFor(r)] + MessagesFor([]);
    assert MessagesFor([q, r]) == [MessageFor(q)] + MessagesFor([r]);
  }

  /** Its framing: the decoder awaits the body's length, unless the first line declares one. */
  lemma PostHeaded(l: bytes, fs: seq<bytes>, body: bytes)
    requires GoodFirst(l) && GoodFields(fs) && |body| <= MAX_BODY
    ensures var m := PostMessage(l, fs, body);
            && Headed(m)
            && ContentLengthOf(m.hdr) == match DeclaredLength(l) case Some(v) => v case None => |body|
  {
    hide RequestLineParts, NormalLines, Block, Normalize, ContentLengthOf, Index, ValidFields, LastField, IsChunked,
         DeclaredLength, GoodFields;
    var ls := LinesOf(l, fs, |body|);
    PostFields(l, fs, |body|);
    NormalizeBlock(ls, |body|);
    DeclaredIs(ls, |body|);
    assert ls == [l] + ls[1..];
    ValidFieldsSplit(l, ls[1..]);
    MarkerLast(ls);
  }

  // ---- its header pieces ----

  function FieldPieces(fs: seq<bytes>): seq<Piece> {
    if fs == [] then [] else [HeaderLinePiece(fs[0] + CRLF)] + FieldPieces(fs[1..])
  }

  lemma {:induction false} PartsAre(ls: seq<bytes>, tail: seq<bytes>)
    requires tail != []
    ensures PartsPieces(ls + tail) == FieldPieces(ls) + PartsPieces(tail)
  {
    hide HeaderLinePiece;
    if ls == [] {
      assert ls + tail == tail;
    } else {
      assert (ls + tail)[0] == ls[0] && (ls + tail)[1..] == ls[1..] + tail;
      PartsAre(ls[1..], tail);
    }
  }

  /** One piece per line, and a bare CRLF. */
  lemma PostPieces(l: bytes, fs: seq<bytes>, n: nat)
    requires GoodFirst(l) && GoodFields(fs)
    ensures HeaderPieces(Block(LinesOf(l, fs, n))) ==
            [HeaderLinePiece(l + CRLF)] + FieldPieces(fs) + [HeaderLinePiece(LengthLine(n) + CRLF), Raw(CRLF)]
  {
    hide RequestLineParts, Split, Block, LengthLine, HeaderLinePiece, PartsPieces, IsFraming, WhitespaceLed,
         FieldPieces;
    var f := LengthLine(n);
    LengthLineValid(n);
    assert forall k <- fs :: GoodField(k);
    assert LfFree(LinesOf(l, fs, n));
    SplitBlock(LinesOf(l, fs, n));
    hide GoodField, LfFree;
    var blank: seq<bytes> := [[], []];
    assert LinesOf(l, fs, n) + [[]] + [[]] == [l] + (fs + ([f] + blank));
    PartsAre([l], fs + ([f] + blank));
    PartsAre(fs, [f] + blank);
    PartsAre([f], blank);
    OneField(l);
    OneField(f);
    BlankPieces();
    Assoc([HeaderLinePiece(l + CRLF)], FieldPieces(fs), [HeaderLinePiece(f + CRLF)] + [Raw(CRLF)]);
  }

  lemma OneField(f: bytes)
    ensures FieldPieces([f]) == [HeaderLinePiece(f + CRLF)]
  {
    hide HeaderLinePiece;
    assert [f][1..] == [] && FieldPieces([f]) == [HeaderLinePiece(f + CRLF)] + FieldPieces([]);
  }

  lemma BlankPieces()
    ensures PartsPieces([[], []]) == [Raw(CRLF)]
  {
    var blank: seq<bytes> := [[], []];
    var last: seq<bytes> := [[]];
    assert blank[1..] == last && blank[0] + CRLF == CRLF && CRLF[0..] == CRLF;
    assert PartsPieces(last) == [];
    assert HeaderLinePiece(CRLF) == Raw(CRLF);
  }

  /** A name, a value and CRLF are cut where they were joined. */
  lemma SegLine(name: bytes, value: bytes)
    requires NameShape(name)
    ensures HeaderLinePiece(name + value + CRLF) == Seg(name, value, CRLF)
  {
    var line, rest := name + value + CRLF, value + CRLF;
    NameAhead(name, rest);
    Assoc(name, value, CRLF);
    hide Index, NameShape;
    assert line[|line| - 2..] == CRLF;
    assert line[..|name|] == name && line[|name|..|line| - 2] == value;
  }

  lemma NameAhead(name: bytes, rest: bytes)
    requires NameShape(name)
    ensures Index(name + rest, COLON_SPACE) == |name| - 2
  {
    hide Index;
    var line, k := name + rest, |name| - 2;
    assert line[k..k + 2] == name[k..];
    forall j | 0 <= j < k
      ensures !MatchAt(line, COLON_SPACE, j)
    {
      assert !MatchAt(name, COLON_SPACE, j);
      assert line[j..j + 2] == name[j..j + 2];
    }
    hide NameShape;
    IndexIs(line, COLON_SPACE, k);
  }

  /** The piece of a length line. */
  function LengthPiece(n: nat): Piece {
    HeaderLinePiece(LengthLine(n) + CRLF)
  }

  lemma LengthIs(n: nat)
    ensures LengthPiece(n) == Seg(LENGTH_PREFIX, Itoa(n), CRLF)
  {
    assert LENGTH_PREFIX[14..] == COLON_SPACE;
    NoColonBefore(LENGTH_PREFIX, 14);
    hide HeaderLinePiece;
    SegLine(LENGTH_PREFIX, Itoa(n));
  }

  lemma LengthShaped(p: Piece, n: nat)
    requires p == LengthPiece(n)
    ensures AnyShape(p) && PieceBytes(p) != []
  {
    assert LengthLine(n) + CRLF != [];
    hide LengthLine, HeaderLinePiece;
    assert PieceBytes(p) == LengthLine(n) + CRLF;
    assert p.Seg? ==> HeaderShape(p);
  }

  lemma NoColonBefore(a: bytes, k: nat)
    requires k <= |a| && forall j :: 0 <= j < k ==> a[j] != COLON
    ensures forall j :: 0 <= j < k ==> !MatchAt(a, COLON_SPACE, j)
  {
    forall j | 0 <= j < k
      ensures !MatchAt(a, COLON_SPACE, j)
    {
      if j + 2 <= |a| {
        assert a[j..j + 2][0] == a[j];
      }
    }
  }

  // ---- outcomes ----

  /** What a run leaves behind, when its frames deliver the given data. */
  lemma Outcomes(h: IdFn, input: bytes, data: seq<bytes>)
    requires DeliversAs(h, START, RunPieces(Accepted(input)), data)
    ensures var e := RunEmission(h, START, Accepted(input));
            var out, r := RunBytes(FRESH, Wire(h, input)), PushAll(Idle([]), data);
            r.Ok? ==> out == Outcome(DecState(e.st.table, 0, r.value), CleanEnd)
  {
    EncoderNeverFails(h, input);
    hide Accepted, RunPieces, DeliversAs, EmitAll, Step, Push;
    var fs := RunEmission(h, START, Accepted(input)).frames;
    FramesRoundTrip(fs);
    RunBytesIsRunFrames(FRESH, WireOf(fs));
    RunIsPushes(h, START, RunPieces(Accepted(input)), data, FRESH);
  }

  lemma OnePieces(m: Message)
    ensures RunPieces([m]) == MessagePieces(m)
  {
    hide MessagePieces;
    assert [m][1..] == [];
    assert MessagePieces(m) + [] == MessagePieces(m);
  }

  lemma TwoPieces(m: Message, n: Message)
    ensures RunPieces([m, n]) == MessagePieces(m) + MessagePieces(n)
  {
    hide MessagePieces;
    OnePieces(n);
    assert [m, n][1..] == [n];
  }

  lemma {:induction false} DeliversAppend(
    h: IdFn, st: EncState, x: seq<Piece>, y: seq<Piece>, dx: seq<bytes>, dy: seq<bytes>)
    requires DeliversAs(h, st, x, dx) && DeliversAs(h, EmitAll(h, st, x).st, y, dy)
    ensures DeliversAs(h, st, x + y, dx + dy)
    decreases |x|
  {
    hide Emit, Delivers;
    if x == [] {
      assert x + y == y && dx + dy == dy;
    } else {
      assert (x + y)[0] == x[0] && (x + y)[1..] == x[1..] + y;
      assert (dx + dy)[0] == dx[0] && (dx + dy)[1..] == dx[1..] + dy;
      DeliversAppend(h, Emit(h, st, x[0]).st, x[1..], y, dx[1..], dy);
    }
  }

  /** One more piece in front. */
  lemma DeliversCons(h: IdFn, st: EncState, p: Piece, x: bytes, ps: seq<Piece>, data: seq<bytes>)
    requires Delivers(st.table, Emit(h, st, p).frames, Emit(h, st, p).st.table, x)
    requires DeliversAs(h, Emit(h, st, p).st, ps, data)
    ensures DeliversAs(h, st, [p] + ps, [x] + data)
  {
    hide Emit, Delivers;
    assert ([p] + ps)[0] == p && ([p] + ps)[1..] == ps && ([x] + data)[0] == x && ([x] + data)[1..] == data;
  }

  lemma DeliversNone(h: IdFn, st: EncState)
    ensures DeliversAs(h, st, [], [])
  {}

  lemma RawDelivered(table: Table, data: bytes)
    ensures Delivers(table, [RawFrame(data)], table, data)
  {}

  lemma RawDelivers(h: IdFn, st: EncState, raw: bytes)
    ensures var e := Emit(h, st, Raw(raw));
            Delivers(st.table, e.frames, e.st.table, raw) && e.st == st
  {}

  // ---- data in other pieces than it was sent in ----

  /** A message cut in any way into pieces is written whole, when its length is declared. */
  lemma CutPushes(m: Message, ps: seq<Piece>, flushed: seq<bytes>)
    requires Headed(m) && ContentLengthOf(m.hdr) == |m.body|
    requires PiecesBytes(ps) == Truth(m) && Nonempty(ps)
    ensures PushAll(Idle(flushed), PieceData(ps)) == Ok(Idle(flushed + [Truth(m)]))
  {
    hide Index, ContentLengthOf, PieceBytes, PiecesBytes, Push, Partial;
    StartPartial(m, flushed);
    NoPieces(ps);
    LastPiece(ps);
    PiecesPush(m, [], ps, flushed);
  }

  lemma DataCons(p: Piece, ps: seq<Piece>)
    ensures PieceData([p] + ps) == [PieceBytes(p)] + PieceData(ps) && PieceData([]) == []
    ensures [p] + [] == [p]
  {
    hide PieceBytes;
    assert ([p] + ps)[1..] == ps;
  }

  lemma OneBytes(p: Piece)
    ensures PiecesBytes([p]) == PieceBytes(p)
  {
    hide PieceBytes;
    assert [p][1..] == [] && PiecesBytes([]) == [];
    assert PieceBytes(p) + [] == PieceBytes(p);
  }

  lemma RawIs(b: bytes)
    ensures PieceBytes(Raw(b)) == b
  {}
}
